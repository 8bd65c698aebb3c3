# A verified model of the bucket list page and the file-synced LRU cache

This project models two parts of a terminal browser for S3 buckets:

- **`SyncLruCache`** (`src/cache.rs`). A bounded key/value cache with least-recently-used eviction. After every `put` it writes its whole contents to a JSON file. On construction it replays that file.
- **`BucketListPage`** (`src/pages/bucket_list.rs`). The first page of the browser. It lists the buckets and lets the user do the following:
  - filter the list by a substring typed into a dialog;
  - sort it by one of three orders chosen in another dialog;
  - move through the list, open a bucket or ask for help.

The project has seven Dafny files:

| file | module | contents |
|---|---|---|
| `wrappers.dfy` | `Wrappers` | `Option` and `Result`. |
| `lru.dfy` | `LruModel` | What the cache observes of the `lru` crate: a capacity and the entries in recency order, least recently used first. `put`, `get`, `get_mut` and `iter` are written as functions, with lemmas for what each promises. An independent account of recency, the history of accesses, shows that the entry a full cache evicts is the one touched longest ago. |
| `cache.dfy` | `Cache` | The class `SyncLruCache`. The in-memory store is a field; the files it reads and writes are a ghost map from path to decoded document. The step of a write that fails is a parameter. It also holds the snapshot format, the replay of a snapshot, the reload round trip, and the scenario written in the comments at the end of `src/cache.rs`. |
| `bucket_view.dfy` | `BucketView` | The computations that need no page state: the substring filter (`str::contains`), the lexicographic order on names, the stable sort of the view indices for each order, and the window of rows `build_list_items` produces. The sort is proved to be the one stable sort of its input. |
| `bucket_list_spec.dfy` | `BucketListSpec` | The page as a state machine on values. `Step` gives what one key press does: the new state, the events sent, and the list moves asked for. The invariant `Inv` holds in every reachable state: the view is exactly the matching buckets in the chosen order. The lemmas state what each key does in each mode. |
| `bucket_list.dfy` | `BucketList` | The class `BucketListPage`. Its fields are updated in place by `HandleKey` and the private transitions, each proved to follow `Step` and to keep `Inv`. |
| `bucket_list_tests.dfy` | `BucketListTests` | The three key-handling tests at the end of `src/pages/bucket_list.rs`, replayed on the class. Each one's postcondition is the list of views the test checks. |

When the snapshot file cannot be opened, for any reason, `new` starts with an empty cache. Only a failed read or a failed decode is reported as an error (`src/cache.rs:41` and `src/cache.rs:50-52`).

Reloading a snapshot gives back the same contents with the recency order reversed. The file lists the most recently used entry first, and the replay makes the last record the most recently used.

## Model

| member | source | states |
|---|---|---|
| `LruModel.PutValid` | src/cache.rs:56-60 | `put` keeps the crate's invariant: positive capacity, no more entries than the capacity, and one entry per key. |
| `LruModel.PutPrevious` | src/cache.rs:56-60 | `put` returns the key's previous value when the key was present, and `None` otherwise. |
| `LruModel.PutContents` | src/cache.rs:56-60 | After `put`, the key maps to the new value and is the most recently used. Every other key keeps its value, except that a new key arriving in a full cache removes the least recently used entry. |
| `LruModel.PutEvictsOne` | src/cache.rs:56-60 | A new key put into a full cache keeps the size at the capacity. Exactly one old key leaves, the least recently used one, and it is not the new key. |
| `LruModel.GetHit` | src/cache.rs:62-64 | A `get` of a present key returns its stored value and makes it the most recently used. The key-to-value mapping does not change. |
| `LruModel.GetMiss` | src/cache.rs:62-64 | A `get` of an absent key returns `None` and changes nothing. |
| `LruModel.GetMutWrites` | src/cache.rs:66-68 | A write through `get_mut` reports whether the key was present. It stores the edited value under the key, leaves every other key alone, and keeps the invariant. |
| `LruModel.Iter` | src/cache.rs:77-84 | The crate's iteration lists every entry exactly once, most recently used first. |
| `LruModel.ReplayRecency` | src/cache.rs:56-68 | For any history of `put`, `get` and `get_mut`, the invariant holds. Every entry has been touched, and the entries are ordered by when each was last touched. |
| `LruModel.EvictsLeastRecentlyTouched` | src/cache.rs:56-60 | After any history, a new key put into a full cache evicts exactly one key. That key's last access is older than the last access of every other key present. |
| `Cache.TempPath` | src/cache.rs:71 | The temporary file is the snapshot path plus a suffix. It is never the snapshot path itself. |
| `Cache.SnapshotListsContents` | src/cache.rs:77-84 | The records written list every entry once, most recently used first, with its value. They have distinct keys, are never more than the capacity, and hold the same key-to-value mapping as memory. |
| `Cache.LoadValid` | src/cache.rs:45-48 | Replaying any record file into an empty cache gives a cache of the requested capacity that keeps the crate's invariant. |
| `Cache.LoadLatestWins` | src/cache.rs:45-48 | Every key that survives the replay holds the value of its last record in the file. |
| `Cache.LoadKeepsAll` | src/cache.rs:45-48 | When the file names no more distinct keys than the capacity, the replay keeps every key. |
| `Cache.LoadDistinct` | src/cache.rs:45-48 | Records with distinct keys, no more than the capacity, are laid out in file order: the last record becomes the most recently used. |
| `Cache.ReloadRoundTrip` | src/cache.rs:37-90 | Reloading what `sync_to_file` wrote, with the same capacity, gives back the same mapping with the same number of entries. The recency order comes back reversed, entry by entry. |
| `Cache.GetMutDiverges` | src/cache.rs:66-68 | A write through `get_mut` that changes a value leaves memory and the last snapshot disagreeing, because `get_mut` does not sync. |
| `Cache.SyncLruCache.New` | src/cache.rs:37-54 | A file that cannot be opened gives a fresh empty cache and nothing on disk. A read failure and a decode failure are returned as errors. Otherwise the cache holds the replay of the records, and the file is remembered as read. |
| `Cache.SyncLruCache.Put` | src/cache.rs:56-60 | Memory always takes the `put`, and the invariant is kept. When the write succeeds, the previous value is returned, the path holds the snapshot of the new contents and the temporary file is gone. When opening the temporary file fails, that error is returned and no file changes. When the write fails, that error is returned and only the temporary file changes, to unreadable content. When the rename fails, that error is returned and only the temporary file changes, to the snapshot. |
| `Cache.SyncLruCache.Get` | src/cache.rs:62-64 | Returns what the key maps to and promotes the key. No file is touched. |
| `Cache.SyncLruCache.GetMut` | src/cache.rs:66-68 | Applies the write and reports whether the key was present. No file is touched. |
| `Cache.SyncLruCache.SyncToFile` | src/cache.rs:70-90 | On success, the path holds the snapshot and the temporary file is gone. If opening the temporary file fails, nothing changes. If the write fails, only the temporary file is left, holding unreadable content. If the rename fails, the temporary file holds the snapshot and the path is unchanged. |
| `Cache.CommentedScenarioPuts` | src/cache.rs:93-100 | A capacity-two cache with no snapshot, after putting apple and banana, holds apple then banana. |
| `Cache.CommentedScenarioReads` | src/cache.rs:104-106 | The reads find apple = 3 and banana = 2 and miss pear. They leave the same recency order. |
| `Cache.CommentedScenarioEviction` | src/cache.rs:108-109 | Updating banana returns its old value 2. Putting pear returns `None` and evicts apple, leaving banana = 4 and pear = 5. |
| `Cache.CommentedScenarioGetMut` | src/cache.rs:113-124 | The reads return pear = 5, banana = 4 and `None` for apple. `get_mut` finds banana, and the 6 written through it is read back. The cache ends as pear = 5, banana = 6. |
| `BucketView.LexLeTotal` | src/pages/bucket_list.rs:351-356 | Any two names compare one way or the other under `String::cmp`. |
| `BucketView.LexLeTransitive` | src/pages/bucket_list.rs:351-356 | The name order is transitive. |
| `BucketView.LexLeAntisymmetric` | src/pages/bucket_list.rs:351-356 | Names that compare equal are the same name. |
| `BucketView.ContainsAt` | src/pages/bucket_list.rs:321 | `contains` holds exactly when the pattern occurs at some position of the name. |
| `BucketView.ContainsEmpty` | src/pages/bucket_list.rs:321 | Every name contains the empty pattern. |
| `BucketView.ContainsTooShort` | src/pages/bucket_list.rs:321 | A name shorter than the pattern does not contain it. |
| `BucketView.FilterIndices` | src/pages/bucket_list.rs:317-323 | The filtered indices are valid item indices, in strictly increasing order. |
| `BucketView.FilterIndicesMatch` | src/pages/bucket_list.rs:317-323 | An index is kept exactly when that bucket's name contains the filter. |
| `BucketView.FilterIndicesUnique` | src/pages/bucket_list.rs:317-323 | The filter's result is the one increasing sequence of exactly the matching indices. |
| `BucketView.FilterEmptyKeepsAll` | src/pages/bucket_list.rs:309-323 | The empty filter keeps every bucket, in item order. |
| `BucketView.InOrderTotal` | src/pages/bucket_list.rs:348-357 | Each order's comparator is total. |
| `BucketView.InOrderTransitive` | src/pages/bucket_list.rs:348-357 | Each order's comparator is transitive. |
| `BucketView.TiedMeans` | src/pages/bucket_list.rs:348-357 | The comparator ties two indices exactly when they are the same index (`Default`) or have the same name (the name orders). |
| `BucketView.SortPermutes` | src/pages/bucket_list.rs:348-357 | Sorting neither loses nor duplicates an index. |
| `BucketView.SortSorted` | src/pages/bucket_list.rs:348-357 | The sorted view is ordered by the comparator of the chosen order. |
| `BucketView.SortStable` | src/pages/bucket_list.rs:348-357 | Indices the comparator ties keep the order they had before the sort. |
| `BucketView.SortDefaultIncreasing` | src/pages/bucket_list.rs:350 | Sorting an increasing view by `Default` leaves it as it is. |
| `BucketView.SortUnique` | src/pages/bucket_list.rs:348-357 | Two sorted permutations of each other that order every run of ties alike are equal. |
| `BucketView.SortIsStableSort` | src/pages/bucket_list.rs:348-357 | The sort keeps the whole promise of a stable sort: a permutation, sorted, with ties in input order. |
| `BucketView.SortCharacterized` | src/pages/bucket_list.rs:348-357 | A sequence is the result of the sort exactly when it keeps the promise of a stable sort of the input. |
| `BucketView.Resort` | src/pages/bucket_list.rs:336-346 | Re-sorting the filtered view by a new order gives the same view as sorting the filtered indices by that order directly. The previous order leaves no trace. |
| `BucketView.ViewOfContents` | src/pages/bucket_list.rs:315-328 | The view holds exactly the buckets whose name contains the filter, each once, sorted by the chosen order. |
| `BucketView.MarkRows` | src/pages/bucket_list.rs:399-403 | Each row shows its bucket's name and is marked selected exactly when its position plus the offset is the selection. |
| `BucketView.BuildListItems` | src/pages/bucket_list.rs:385-405 | The rows are the view after skipping `offset` indices, at most `height - 2` of them. Each shows its bucket's name and is marked selected exactly at the selected position. |
| `BucketView.SelectedRowShown` | src/pages/bucket_list.rs:394-404 | At most one row is marked selected. One is marked exactly when the selection falls in the window, and that row shows the selected bucket. |
| `BucketListSpec.NextSortType` | src/pages/bucket_list.rs:336-346 | Moving the sort cursor down always changes the order, and moving it up undoes the move. |
| `BucketListSpec.EditInput` | src/pages/bucket_list.rs:117 | A character is appended to the filter text. Backspace shortens it to a prefix, one character shorter unless it is empty. Any other key leaves it alone. |
| `BucketListSpec.EditUndo` | src/pages/bucket_list.rs:117 | Typing a character and then Backspace restores the filter text. |
| `BucketListSpec.DialogsDoNotNavigate` | src/pages/bucket_list.rs:106-138 | No key in either dialog moves the list. |
| `BucketListSpec.InitInv` | src/pages/bucket_list.rs:47-59 | A new page satisfies the invariant: with no filter and the default order, every bucket shows in item order. |
| `BucketListSpec.FilterViewInv` | src/pages/bucket_list.rs:315-328 | Refiltering establishes the invariant from any state. |
| `BucketListSpec.SortViewInv` | src/pages/bucket_list.rs:348-358 | Under the invariant, sorting by any order gives that order's view and keeps the invariant. |
| `BucketListSpec.CloseSortDialogView` | src/pages/bucket_list.rs:296-301 | Closing the sort dialog returns to the default order, which shows the matching buckets in item order. |
| `BucketListSpec.ApplySortView` | src/pages/bucket_list.rs:330-334 | Applying the sort only leaves the dialog: the view is already in the chosen order. |
| `BucketListSpec.SelectSortItemView` | src/pages/bucket_list.rs:336-346 | Moving the sort cursor shows the view of the order under the cursor and keeps the invariant. |
| `BucketListSpec.DefaultStepInv` | src/pages/bucket_list.rs:63-105 | Every key in the default view keeps the invariant. |
| `BucketListSpec.FilterDialogStepInv` | src/pages/bucket_list.rs:106-120 | Every key in the filter dialog keeps the invariant. |
| `BucketListSpec.SortDialogStepInv` | src/pages/bucket_list.rs:121-138 | Every key in the sort dialog keeps the invariant. |
| `BucketListSpec.StepKeepsInv` | src/pages/bucket_list.rs:61-140 | Every key press in every mode keeps the invariant. |
| `BucketListSpec.ViewMatchesFilter` | src/pages/bucket_list.rs:315-358 | Under the invariant, the view holds exactly the buckets matching the filter, each once, in valid range, sorted by the chosen order. |
| `BucketListSpec.RowsMatchFilter` | src/pages/bucket_list.rs:407-411 | Every row drawn shows a bucket whose name contains the filter, so splitting the name around the match cannot fail. |
| `BucketListSpec.FirstRender` | src/pages/bucket_list.rs:142-156 | A new page draws the first `height - 2` buckets, or all of them if fewer, in item order, with the first one selected. |
| `BucketListSpec.HelpKey` | src/pages/bucket_list.rs:101-136 | '?' sends `OpenHelp` from every mode and changes nothing else. |
| `BucketListSpec.DefaultEscQuits` | src/pages/bucket_list.rs:64-66 | Esc in the default view with no filter sends `Quit` and changes nothing. |
| `BucketListSpec.DefaultEscClears` | src/pages/bucket_list.rs:64-69 | Esc in the default view with a filter clears it. Afterwards every bucket shows, in the chosen order, from the top of the list, and nothing is sent. |
| `BucketListSpec.DefaultItemKeys` | src/pages/bucket_list.rs:71-94 | With an empty view, Enter, the navigation keys and 'x' do nothing. Otherwise Enter and 'x' send their event and each navigation key asks the list for its move, leaving the page state alone. |
| `BucketListSpec.DefaultOpensDialogs` | src/pages/bucket_list.rs:95-100 | '/' and 'o' open the filter and sort dialogs and change nothing else. |
| `BucketListSpec.FilterDialogEsc` | src/pages/bucket_list.rs:107-109 | Esc in the filter dialog returns to the default view with the filter cleared and every bucket in the chosen order. |
| `BucketListSpec.FilterDialogEnter` | src/pages/bucket_list.rs:110-112 | Enter in the filter dialog returns to the default view, keeping the filter and the view. Only the list position resets. |
| `BucketListSpec.FilterDialogEdit` | src/pages/bucket_list.rs:116-119 | Any other key except '?' edits the filter, and the view becomes that filter's view at once. |
| `BucketListSpec.SortDialogEsc` | src/pages/bucket_list.rs:122-124 | Esc in the sort dialog returns to the default order, showing the matches in item order. |
| `BucketListSpec.SortDialogEnter` | src/pages/bucket_list.rs:131-133 | Enter in the sort dialog keeps the chosen order and the view. |
| `BucketListSpec.SortDialogMove` | src/pages/bucket_list.rs:125-130 | 'j' and 'k' move the cursor down and up, and the view becomes the view of the order under the cursor. |
| `BucketListSpec.ViewDeterminedByFilterAndOrder` | src/pages/bucket_list.rs:315-358 | In reachable states, the view depends only on the filter and the order, not on the keys that led there. |
| `BucketList.BucketListPage.constructor` | src/pages/bucket_list.rs:47-59 | A new page shows every bucket in item order, in the default view, with no filter and the default order. Nothing has been sent. |
| `BucketList.BucketListPage.HandleKey` | src/pages/bucket_list.rs:61-140 | A key press moves the page to the state `Step` gives and appends `Step`'s events and list moves to the logs. The invariant is kept. |
| `BucketList.BucketListPage.HandleDefaultKey` | src/pages/bucket_list.rs:63-105 | The default-view arm follows `Step` and keeps the invariant. |
| `BucketList.BucketListPage.DefaultEscKey` | src/pages/bucket_list.rs:64-70 | Esc in the default view follows `Step`: it quits, or clears the filter. |
| `BucketList.BucketListPage.DefaultEnterKey` | src/pages/bucket_list.rs:71-73 | Enter in the default view follows `Step`. |
| `BucketList.BucketListPage.DefaultCharKey` | src/pages/bucket_list.rs:74-103 | The character keys of the default view follow `Step`. |
| `BucketList.BucketListPage.HandleFilterDialogKey` | src/pages/bucket_list.rs:106-120 | The filter-dialog arm follows `Step` and keeps the invariant. |
| `BucketList.BucketListPage.FilterDialogEscKey` | src/pages/bucket_list.rs:107-109 | Esc in the filter dialog follows `Step`. |
| `BucketList.BucketListPage.FilterDialogEnterKey` | src/pages/bucket_list.rs:110-112 | Enter in the filter dialog follows `Step`. |
| `BucketList.BucketListPage.FilterDialogEditKey` | src/pages/bucket_list.rs:116-119 | An editing key in the filter dialog follows `Step`. |
| `BucketList.BucketListPage.HandleSortDialogKey` | src/pages/bucket_list.rs:121-138 | The sort-dialog arm follows `Step` and keeps the invariant. |
| `BucketList.BucketListPage.SortDialogEscKey` | src/pages/bucket_list.rs:122-124 | Esc in the sort dialog follows `Step`. |
| `BucketList.BucketListPage.SortDialogEnterKey` | src/pages/bucket_list.rs:131-133 | Enter in the sort dialog follows `Step`. |
| `BucketList.BucketListPage.SortDialogMoveKey` | src/pages/bucket_list.rs:125-130 | 'j' and 'k' in the sort dialog follow `Step`. |
| `BucketList.BucketListPage.SelectNext` | src/pages/bucket_list.rs:259-261 | Asks the list for the next row. |
| `BucketList.BucketListPage.SelectPrev` | src/pages/bucket_list.rs:263-265 | Asks the list for the previous row. |
| `BucketList.BucketListPage.SelectFirst` | src/pages/bucket_list.rs:267-269 | Asks the list for the first row. |
| `BucketList.BucketListPage.SelectLast` | src/pages/bucket_list.rs:271-273 | Asks the list for the last row. |
| `BucketList.BucketListPage.SelectNextPage` | src/pages/bucket_list.rs:275-277 | Asks the list for the next page. |
| `BucketList.BucketListPage.SelectPrevPage` | src/pages/bucket_list.rs:279-281 | Asks the list for the previous page. |
| `BucketList.BucketListPage.OpenFilterDialog` | src/pages/bucket_list.rs:283-285 | Only the mode changes, to the filter dialog. |
| `BucketList.BucketListPage.CloseFilterDialog` | src/pages/bucket_list.rs:287-290 | Back to the default view with the filter reset. The invariant holds afterwards. |
| `BucketList.BucketListPage.OpenSortDialog` | src/pages/bucket_list.rs:292-294 | Only the mode changes, to the sort dialog. |
| `BucketList.BucketListPage.CloseSortDialog` | src/pages/bucket_list.rs:296-301 | Back to the default view and the default order, with the view resorted. |
| `BucketList.BucketListPage.ApplyFilter` | src/pages/bucket_list.rs:303-307 | Back to the default view with the view refiltered. The invariant holds afterwards. |
| `BucketList.BucketListPage.ResetFilter` | src/pages/bucket_list.rs:309-313 | The filter is emptied and the view refiltered. The invariant holds afterwards. |
| `BucketList.BucketListPage.FilterViewIndices` | src/pages/bucket_list.rs:315-328 | The view becomes the sorted matches and the list state resets to their count. The invariant holds afterwards, whatever the view was before. |
| `BucketList.BucketListPage.ApplySort` | src/pages/bucket_list.rs:330-334 | Back to the default view with the view resorted. |
| `BucketList.BucketListPage.SelectNextSortItem` | src/pages/bucket_list.rs:336-340 | The cursor moves down and the view is resorted by the new order. |
| `BucketList.BucketListPage.SelectPrevSortItem` | src/pages/bucket_list.rs:342-346 | The cursor moves up and the view is resorted by the new order. |
| `BucketList.BucketListPage.SortViewIndices` | src/pages/bucket_list.rs:348-358 | The view is replaced by its stable sort, a permutation of the old view ordered by the order under the cursor. |
| `BucketList.BucketListPage.CurrentSelectedItem` | src/pages/bucket_list.rs:360-378 | When the selection is inside the view, the result is the bucket at that position of the view, and its name contains the filter. |
| `BucketList.BucketListPage.NonEmpty` | src/pages/bucket_list.rs:380-382 | True exactly when some bucket's name contains the filter. |
| `BucketListTests.FilterBa` | src/pages/bucket_list.rs:653-657 | Filtering foo, bar, baz, qux, foobar by "ba" keeps 1, 2, 4. |
| `BucketListTests.FilterBar` | src/pages/bucket_list.rs:659-661 | Filtering by "bar" keeps 1, 4. |
| `BucketListTests.FilterBarr` | src/pages/bucket_list.rs:663-665 | Filtering by "barr" keeps nothing. |
| `BucketListTests.FilterFo` | src/pages/bucket_list.rs:740-745 | Filtering by "fo" keeps 0, 4. |
| `BucketListTests.SortAllAsc` | src/pages/bucket_list.rs:691-693 | The five buckets by name ascending are 1, 2, 0, 4, 3. |
| `BucketListTests.SortAllDesc` | src/pages/bucket_list.rs:695-698 | The five buckets by name descending are 3, 4, 0, 2, 1. |
| `BucketListTests.SortBaDesc` | src/pages/bucket_list.rs:729-734 | The "ba" matches by name descending are 4, 2, 1. |
| `BucketListTests.SortFoDesc` | src/pages/bucket_list.rs:740-745 | The "fo" matches by name descending are 4, 0. |
| `BucketListTests.FilterItemsScenario` | src/pages/bucket_list.rs:642-675 | The page shows, in turn: 1, 2, 4 after "/ba"; 1, 4 after "r"; nothing after "r"; 1, 2, 4 after two Backspaces; all five after Esc. |
| `BucketListTests.SortItemsScenario` | src/pages/bucket_list.rs:678-708 | The page shows 1, 2, 0, 4, 3 after "o j", then 3, 4, 0, 2, 1 after "j Enter", then 1, 2, 0, 4, 3 after "o k", then all five in item order after Esc. |
| `BucketListTests.FilterAndSortScenario` | src/pages/bucket_list.rs:711-751 | The page shows 1, 2, 4; then 4, 2, 1; then 3, 4, 0, 2, 1; then 4, 0; then 0, 4, as the test checks after each step. |

## Left out

- File I/O and JSON: reading, decoding, encoding, writing and renaming are not modelled as text. A file is the document it decodes to, and which step fails is a parameter (`StoredFile`, `SyncFault`). `serde` is not part of this model.
- The `lru` crate is not part of this model. Its observable behaviour (capacity, recency order, eviction of the least recently used entry, `iter` from most recently used) is written as the value model `LruModel`.
- `SyncLruCache`'s `Debug` output and the `println!` calls of the commented scenario are not modelled.
- `Cache.SyncLruCache.GetMut`: the caller's write through the returned reference is a function `edit` applied at once. A reference held across other calls is not modelled.
- Rendering: `render`, the dialogs' widgets, colours, styles and cursor placement are not modelled. `build_list_items` is modelled down to the bucket name and the selected flag of each row.
- `helps` and `short_helps` are constant tables of strings and are not modelled.
- `BucketView.BuildListItems`: requires a height of at least 2. Below that, the source's `usize` subtraction would underflow.
- `ScrollListState` is not part of this model. Its `new` (selection and offset at zero, row count) is modelled. The six navigation moves are recorded in a ghost log instead of being carried out.
- `InputDialogState` is not part of this model. The filter is its text, with the cursor assumed at the end: a character appends, Backspace drops the last character, and other keys leave the text alone.
- `BucketListSortDialogState` is not part of this model. Its cursor is the selected `SortType`, and `select_next`/`select_prev` are assumed to wrap round the three orders. `reset` is assumed to return to `Default`.
- Key modifiers are not modelled, and Ctrl-c is handled outside this page. Keys are characters, Esc, Enter, Backspace and "any other key".
- The `tx` channel is a ghost log of the events sent. The receiving application is not modelled.
- `BucketItem` is reduced to its name, the only field the page reads.
- `BucketList.BucketListPage.CurrentSelectedItem`: requires the selection to be inside the view. The source panics when it is outside.
- Rust's `sort` and `sort_by` are modelled by a stable insertion sort. The lemmas show it produces the one stable sort of its input, which is all the code relies on.
