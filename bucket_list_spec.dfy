/**
 * The bucket-list page (src/pages/bucket_list.rs) as a state machine on
 * values: the state the page keeps, and `Step`, what one key press does to
 * it: the new state, the events sent to the application and the list
 * navigation requested.  The class `BucketList.BucketListPage` is proved
 * to follow `Step`; the lemmas here say what `Step` means.
 */
module BucketListSpec {
  import opened BucketView

  /** `ViewState`: which part of the page receives the keys. */
  datatype ViewState = Default | FilterDialog | SortDialog

  /** A key press; modifiers are not modelled. */
  datatype Key = Char(c: char) | Esc | Enter | Backspace | OtherKey

  /** The application events the page sends (`AppEventType`). */
  datatype AppEvent = Quit | BucketListMoveDown | BucketListOpenManagementConsole | OpenHelp

  /** The `ScrollListState` operations the navigation keys ask for. */
  datatype NavCommand = Next | Prev | First | Last | NextPage | PrevPage

  /** The part of `ScrollListState` the page reads: selected row, first visible row, row count. */
  datatype ListState = ListState(selected: nat, offset: nat, total: nat)

  /** `ScrollListState::new(total)`. */
  function NewListState(total: nat): ListState
  {
    ListState(0, 0, total)
  }

  /** The navigation key bindings of the default view. */
  const NavKeys: map<char, NavCommand> :=
    map['j' := Next, 'k' := Prev, 'g' := First, 'G' := Last, 'f' := NextPage, 'b' := PrevPage]

  lemma NavKeysFacts()
    ensures NavKeys.Keys == {'j', 'k', 'g', 'G', 'f', 'b'}
    ensures NavKeys['j'] == Next && NavKeys['k'] == Prev && NavKeys['g'] == First
    ensures NavKeys['G'] == Last && NavKeys['f'] == NextPage && NavKeys['b'] == PrevPage
  {
  }

  /** `BucketListSortDialogState::select_next`: the cursor moves down the three orders, wrapping round. */
  function NextSortType(t: SortType): (r: SortType)
    ensures r != t && PrevSortType(r) == t
  {
    match t
    case Default => NameAsc
    case NameAsc => NameDesc
    case NameDesc => SortType.Default
  }

  /** `BucketListSortDialogState::select_prev`: the cursor moves up, wrapping round. */
  function PrevSortType(t: SortType): SortType
  {
    match t
    case Default => NameDesc
    case NameAsc => SortType.Default
    case NameDesc => NameAsc
  }

  /**
   * `InputDialogState::handle_key_event` with the cursor at the end of the
   * input: a character is appended, backspace removes the last one.
   */
  function EditInput(input: string, key: Key): (r: string)
    ensures key.Char? ==> |r| == |input| + 1 && r[..|input|] == input && r[|input|] == key.c
    ensures key == Backspace ==> r <= input && |r| == if input == [] then 0 else |input| - 1
    ensures !key.Char? && key != Backspace ==> r == input
  {
    match key
    case Char(c) => input + [c]
    case Backspace => if input == [] then [] else input[..|input| - 1]
    case _ => input
  }

  /** Typing a character and deleting it again restores the input. */
  lemma EditUndo(input: string, c: char)
    ensures EditInput(EditInput(input, Char(c)), Backspace) == input
  {
    assert EditInput(input, Char(c))[..|input|] == input;
  }

  /** Everything the page's key handling reads and writes. */
  datatype PageState = PageState(
    view: seq<nat>,
    viewState: ViewState,
    list: ListState,
    filter: string,
    sortType: SortType)

  /** What one key press produces. */
  datatype Outcome = Outcome(state: PageState, sent: seq<AppEvent>, nav: seq<NavCommand>)

  /** `BucketListPage::new`: every item in item order, default view, empty filter, default order. */
  function Init(items: seq<BucketItem>): PageState
  {
    PageState(Range(|items|), ViewState.Default, NewListState(|items|), [], SortType.Default)
  }

  /**
   * The invariant of the page: the view is exactly the items matching the
   * filter in the chosen order (ties in item order), and the list state
   * counts its rows.
   */
  predicate Inv(items: seq<BucketItem>, s: PageState)
  {
    s.view == ViewOf(items, s.filter, s.sortType) && s.list.total == |s.view|
  }

  // ---------------------------------------------------------------------------
  // The transitions, one per private method of the page

  /** `sort_view_indices`. */
  function SortView(items: seq<BucketItem>, s: PageState): PageState
    requires InRange(items, s.view)
  {
    s.(view := SortIndices(items, s.sortType, s.view))
  }

  /** `filter_view_indices`: recompute the matches, reset the list, sort. */
  function FilterView(items: seq<BucketItem>, s: PageState): PageState
  {
    var matches := FilterIndices(items, s.filter);
    SortView(items, s.(view := matches, list := NewListState(|matches|)))
  }

  /** `reset_filter`. */
  function ResetFilter(items: seq<BucketItem>, s: PageState): PageState
  {
    FilterView(items, s.(filter := []))
  }

  /** `open_filter_dialog`. */
  function OpenFilterDialog(s: PageState): PageState
  {
    s.(viewState := FilterDialog)
  }

  /** `close_filter_dialog`. */
  function CloseFilterDialog(items: seq<BucketItem>, s: PageState): PageState
  {
    ResetFilter(items, s.(viewState := ViewState.Default))
  }

  /** `apply_filter`. */
  function ApplyFilter(items: seq<BucketItem>, s: PageState): PageState
  {
    FilterView(items, s.(viewState := ViewState.Default))
  }

  /** The catch-all branch of the filter dialog: edit the input, then `filter_view_indices`. */
  function EditFilter(items: seq<BucketItem>, s: PageState, key: Key): PageState
  {
    FilterView(items, s.(filter := EditInput(s.filter, key)))
  }

  /** `open_sort_dialog`. */
  function OpenSortDialog(s: PageState): PageState
  {
    s.(viewState := SortDialog)
  }

  /** `close_sort_dialog`: back to the default order. */
  function CloseSortDialog(items: seq<BucketItem>, s: PageState): PageState
    requires InRange(items, s.view)
  {
    SortView(items, s.(viewState := ViewState.Default, sortType := SortType.Default))
  }

  /** `apply_sort`. */
  function ApplySort(items: seq<BucketItem>, s: PageState): PageState
    requires InRange(items, s.view)
  {
    SortView(items, s.(viewState := ViewState.Default))
  }

  /** `select_next_sort_item`. */
  function SelectNextSortItem(items: seq<BucketItem>, s: PageState): PageState
    requires InRange(items, s.view)
  {
    SortView(items, s.(sortType := NextSortType(s.sortType)))
  }

  /** `select_prev_sort_item`. */
  function SelectPrevSortItem(items: seq<BucketItem>, s: PageState): PageState
    requires InRange(items, s.view)
  {
    SortView(items, s.(sortType := PrevSortType(s.sortType)))
  }

  // ---------------------------------------------------------------------------
  // `handle_key`

  function Quiet(s: PageState): Outcome
  {
    Outcome(s, [], [])
  }

  function Send(s: PageState, e: AppEvent): Outcome
  {
    Outcome(s, [e], [])
  }

  /** The default view: quit or clear the filter, navigate, open a bucket or a dialog, ask for help. */
  function DefaultStep(items: seq<BucketItem>, s: PageState, key: Key): Outcome
  {
    var nonEmpty := s.view != [];
    match key
    case Esc => if s.filter == [] then Send(s, Quit) else Quiet(ResetFilter(items, s))
    case Enter => if nonEmpty then Send(s, BucketListMoveDown) else Quiet(s)
    case Char(c) =>
      if nonEmpty && c in NavKeys then Outcome(s, [], [NavKeys[c]])
      else if nonEmpty && c == 'x' then Send(s, BucketListOpenManagementConsole)
      else if c == '/' then Quiet(OpenFilterDialog(s))
      else if c == 'o' then Quiet(OpenSortDialog(s))
      else if c == '?' then Send(s, OpenHelp)
      else Quiet(s)
    case _ => Quiet(s)
  }

  /** The filter dialog: close, apply, help, or edit the filter and refilter at once. */
  function FilterDialogStep(items: seq<BucketItem>, s: PageState, key: Key): Outcome
  {
    match key
    case Esc => Quiet(CloseFilterDialog(items, s))
    case Enter => Quiet(ApplyFilter(items, s))
    case _ => if key == Char('?') then Send(s, OpenHelp) else Quiet(EditFilter(items, s, key))
  }

  /** The sort dialog: close, move the cursor and resort at once, apply, help. */
  function SortDialogStep(items: seq<BucketItem>, s: PageState, key: Key): Outcome
    requires InRange(items, s.view)
  {
    match key
    case Esc => Quiet(CloseSortDialog(items, s))
    case Enter => Quiet(ApplySort(items, s))
    case Char(c) =>
      if c == 'j' then Quiet(SelectNextSortItem(items, s))
      else if c == 'k' then Quiet(SelectPrevSortItem(items, s))
      else if c == '?' then Send(s, OpenHelp)
      else Quiet(s)
    case _ => Quiet(s)
  }

  /** `handle_key`. */
  function Step(items: seq<BucketItem>, s: PageState, key: Key): Outcome
    requires InRange(items, s.view)
  {
    match s.viewState
    case Default => DefaultStep(items, s, key)
    case FilterDialog => FilterDialogStep(items, s, key)
    case SortDialog => SortDialogStep(items, s, key)
  }

  /** The dialogs never move the list. */
  lemma DialogsDoNotNavigate(items: seq<BucketItem>, s: PageState, key: Key)
    requires InRange(items, s.view)
    ensures FilterDialogStep(items, s, key).nav == [] && SortDialogStep(items, s, key).nav == []
  {
  }

  // ---------------------------------------------------------------------------
  // What the transitions mean

  /** A new page satisfies the invariant: with no filter and the default order, every item shows in item order. */
  lemma InitInv(items: seq<BucketItem>)
    ensures Inv(items, Init(items))
  {
    FilterEmptyKeepsAll(items);
    SortDefaultIncreasing(items, Range(|items|));
  }

  /** Refiltering always establishes the invariant, whatever the view was. */
  lemma FilterViewInv(items: seq<BucketItem>, s: PageState)
    ensures Inv(items, FilterView(items, s))
  {
  }

  /** Sorting a view that satisfies the invariant by any order gives the view of that order. */
  lemma SortViewInv(items: seq<BucketItem>, s: PageState, t: SortType)
    requires Inv(items, s)
    ensures Inv(items, SortView(items, s.(sortType := t)))
    ensures SortView(items, s.(sortType := t)).view == ViewOf(items, s.filter, t)
  {
    Resort(items, s.sortType, t, FilterIndices(items, s.filter));
  }

  /** `close_sort_dialog` under the invariant: the default order shows the matches in item order. */
  lemma CloseSortDialogView(items: seq<BucketItem>, s: PageState)
    requires Inv(items, s)
    ensures CloseSortDialog(items, s) ==
      s.(viewState := ViewState.Default, sortType := SortType.Default, view := FilterIndices(items, s.filter))
    ensures Inv(items, CloseSortDialog(items, s))
  {
    SortViewInv(items, s.(viewState := ViewState.Default), SortType.Default);
    SortDefaultIncreasing(items, FilterIndices(items, s.filter));
  }

  /** `apply_sort` under the invariant: the view is already in the chosen order. */
  lemma ApplySortView(items: seq<BucketItem>, s: PageState)
    requires Inv(items, s)
    ensures ApplySort(items, s) == s.(viewState := ViewState.Default)
  {
    SortViewInv(items, s.(viewState := ViewState.Default), s.sortType);
  }

  /** Moving the sort cursor under the invariant shows the view of the order under the cursor. */
  lemma SelectSortItemView(items: seq<BucketItem>, s: PageState)
    requires Inv(items, s)
    ensures SelectNextSortItem(items, s) ==
      s.(sortType := NextSortType(s.sortType), view := ViewOf(items, s.filter, NextSortType(s.sortType)))
    ensures SelectPrevSortItem(items, s) ==
      s.(sortType := PrevSortType(s.sortType), view := ViewOf(items, s.filter, PrevSortType(s.sortType)))
    ensures Inv(items, SelectNextSortItem(items, s)) && Inv(items, SelectPrevSortItem(items, s))
  {
    SortViewInv(items, s, NextSortType(s.sortType));
    SortViewInv(items, s, PrevSortType(s.sortType));
  }

  lemma DefaultStepInv(items: seq<BucketItem>, s: PageState, key: Key)
    requires Inv(items, s)
    ensures Inv(items, DefaultStep(items, s, key).state)
  {
    match key
    case Esc =>
      if s.filter != [] {
        FilterViewInv(items, s.(filter := []));
      }
    case Char(c) =>
      var t := DefaultStep(items, s, key).state;
      assert t == s || t == s.(viewState := FilterDialog) || t == s.(viewState := SortDialog);
    case _ =>
      assert DefaultStep(items, s, key).state == s;
  }

  lemma FilterDialogStepInv(items: seq<BucketItem>, s: PageState, key: Key)
    requires Inv(items, s)
    ensures Inv(items, FilterDialogStep(items, s, key).state)
  {
    FilterViewInv(items, s.(viewState := ViewState.Default, filter := []));
    FilterViewInv(items, s.(viewState := ViewState.Default));
    FilterViewInv(items, s.(filter := EditInput(s.filter, key)));
  }

  lemma SortDialogStepInv(items: seq<BucketItem>, s: PageState, key: Key)
    requires Inv(items, s)
    ensures Inv(items, SortDialogStep(items, s, key).state)
  {
    match key
    case Esc => CloseSortDialogView(items, s);
    case Enter => ApplySortView(items, s);
    case Char(c) =>
      if c == 'j' || c == 'k' {
        SelectSortItemView(items, s);
      } else {
        assert SortDialogStep(items, s, key).state == s;
      }
    case _ =>
  }

  /** Every key press keeps the invariant. */
  lemma StepKeepsInv(items: seq<BucketItem>, s: PageState, key: Key)
    requires Inv(items, s)
    ensures Inv(items, Step(items, s, key).state)
  {
    match s.viewState
    case Default => DefaultStepInv(items, s, key);
    case FilterDialog => FilterDialogStepInv(items, s, key);
    case SortDialog => SortDialogStepInv(items, s, key);
  }

  /** Under the invariant, the view holds exactly the items whose name contains the filter, each once. */
  lemma ViewMatchesFilter(items: seq<BucketItem>, s: PageState)
    requires Inv(items, s)
    ensures forall i :: 0 <= i < |items| ==> (i in s.view <==> Contains(items[i].name, s.filter))
    ensures forall i :: 0 <= i < |s.view| ==> s.view[i] < |items| && Contains(items[s.view[i]].name, s.filter)
    ensures forall i, j :: 0 <= i < j < |s.view| ==> s.view[i] != s.view[j]
    ensures SortedBy(items, s.sortType, s.view)
  {
    ViewOfContents(items, s.filter, s.sortType);
  }

  /**
   * Every row drawn shows a bucket matching the filter, so highlighting the
   * match in each row (`split_str(..).unwrap()` in `build_list_item`) never fails.
   */
  lemma RowsMatchFilter(items: seq<BucketItem>, s: PageState, height: nat)
    requires Inv(items, s) && 2 <= height
    ensures var rows := BuildListItems(items, s.view, s.list.offset, s.list.selected, height);
      forall i :: 0 <= i < |rows| ==> Contains(rows[i].name, s.filter)
  {
    ViewMatchesFilter(items, s);
  }

  /**
   * A new page draws the first `height - 2` buckets (or all, if fewer) in
   * item order, with the first one selected.
   */
  lemma FirstRender(items: seq<BucketItem>, height: nat)
    requires 2 <= height
    ensures var s := Init(items);
      var rows := BuildListItems(items, s.view, s.list.offset, s.list.selected, height);
      && |rows| == Min(height - 2, |items|)
      && forall i :: 0 <= i < |rows| ==> rows[i] == ListRow(items[i].name, i == 0)
  {
  }

  /** Help opens from every view and changes nothing else. */
  lemma HelpKey(items: seq<BucketItem>, s: PageState)
    requires InRange(items, s.view)
    ensures Step(items, s, Char('?')) == Outcome(s, [OpenHelp], [])
  {
  }

  /** Esc in the default view quits when no filter is set, and changes nothing. */
  lemma DefaultEscQuits(items: seq<BucketItem>, s: PageState)
    requires InRange(items, s.view) && s.viewState == ViewState.Default && s.filter == []
    ensures Step(items, s, Esc) == Outcome(s, [Quit], [])
  {
  }

  /**
   * Esc in the default view with a filter set clears the filter, after which
   * every item shows, still in the chosen order, from the top of the list.
   */
  lemma DefaultEscClears(items: seq<BucketItem>, s: PageState)
    requires Inv(items, s) && s.viewState == ViewState.Default && s.filter != []
    ensures var o := Step(items, s, Esc);
      && o.sent == [] && o.nav == []
      && o.state.viewState == ViewState.Default && o.state.filter == [] && o.state.sortType == s.sortType
      && o.state.view == SortIndices(items, s.sortType, Range(|items|))
      && o.state.list == NewListState(|items|)
      && (forall i :: 0 <= i < |items| ==> i in o.state.view)
  {
    var o := Step(items, s, Esc);
    FilterEmptyKeepsAll(items);
    ViewMatchesFilter(items, o.state);
    forall i | 0 <= i < |items| ensures i in o.state.view {
      ContainsEmpty(items[i].name);
    }
  }

  /**
   * With no item in the view, Enter and the navigation and console keys do
   * nothing in the default view; with items, each sends its event or asks
   * the list for its move and leaves the page state alone.
   */
  lemma DefaultItemKeys(items: seq<BucketItem>, s: PageState, c: char)
    requires InRange(items, s.view) && s.viewState == ViewState.Default
    requires c in NavKeys || c == 'x'
    ensures s.view == [] ==> Step(items, s, Enter) == Quiet(s) && Step(items, s, Char(c)) == Quiet(s)
    ensures s.view != [] ==> Step(items, s, Enter) == Outcome(s, [BucketListMoveDown], [])
    ensures s.view != [] && c in NavKeys ==> Step(items, s, Char(c)) == Outcome(s, [], [NavKeys[c]])
    ensures s.view != [] && c == 'x' ==> Step(items, s, Char(c)) == Outcome(s, [BucketListOpenManagementConsole], [])
  {
  }

  /** '/' and 'o' open the dialogs from the default view and change nothing else. */
  lemma DefaultOpensDialogs(items: seq<BucketItem>, s: PageState)
    requires InRange(items, s.view) && s.viewState == ViewState.Default
    ensures Step(items, s, Char('/')) == Quiet(s.(viewState := FilterDialog))
    ensures Step(items, s, Char('o')) == Quiet(s.(viewState := SortDialog))
  {
    assert '/' !in NavKeys && 'o' !in NavKeys;
  }

  /** In the filter dialog, Esc returns to the default view with the filter cleared. */
  lemma FilterDialogEsc(items: seq<BucketItem>, s: PageState)
    requires Inv(items, s) && s.viewState == FilterDialog
    ensures var o := Step(items, s, Esc);
      && o.sent == [] && o.nav == []
      && o.state.viewState == ViewState.Default && o.state.filter == [] && o.state.sortType == s.sortType
      && o.state.view == ViewOf(items, [], s.sortType)
  {
  }

  /**
   * In the filter dialog, Enter returns to the default view with the filter
   * kept, so the view stays as it is and only the list position resets.
   */
  lemma FilterDialogEnter(items: seq<BucketItem>, s: PageState)
    requires Inv(items, s) && s.viewState == FilterDialog
    ensures Step(items, s, Enter) == Quiet(s.(viewState := ViewState.Default, list := NewListState(|s.view|)))
  {
  }

  /** In the filter dialog, any other key except '?' edits the filter and the view follows at once. */
  lemma FilterDialogEdit(items: seq<BucketItem>, s: PageState, key: Key)
    requires Inv(items, s) && s.viewState == FilterDialog
    requires key != Esc && key != Enter && key != Char('?')
    ensures var o := Step(items, s, key);
      && o.sent == [] && o.nav == []
      && o.state.viewState == FilterDialog && o.state.filter == EditInput(s.filter, key)
      && o.state.sortType == s.sortType && o.state.view == ViewOf(items, EditInput(s.filter, key), s.sortType)
  {
  }

  /**
   * In the sort dialog, Esc returns to the default view with the default
   * order, which shows the matching items in item order.
   */
  lemma SortDialogEsc(items: seq<BucketItem>, s: PageState)
    requires Inv(items, s) && s.viewState == SortDialog
    ensures var o := Step(items, s, Esc);
      && o.sent == [] && o.nav == []
      && o.state.viewState == ViewState.Default && o.state.sortType == SortType.Default
      && o.state.view == FilterIndices(items, s.filter) && o.state.filter == s.filter
  {
    CloseSortDialogView(items, s);
  }

  /** In the sort dialog, Enter keeps the chosen order and the view. */
  lemma SortDialogEnter(items: seq<BucketItem>, s: PageState)
    requires Inv(items, s) && s.viewState == SortDialog
    ensures Step(items, s, Enter) == Quiet(s.(viewState := ViewState.Default))
  {
    ApplySortView(items, s);
  }

  /** In the sort dialog, 'j' and 'k' move the cursor and resort the view by the order under it. */
  lemma SortDialogMove(items: seq<BucketItem>, s: PageState)
    requires Inv(items, s) && s.viewState == SortDialog
    ensures var o := Step(items, s, Char('j'));
      && o.sent == [] && o.nav == []
      && o.state == s.(sortType := NextSortType(s.sortType), view := ViewOf(items, s.filter, NextSortType(s.sortType)))
    ensures var o := Step(items, s, Char('k'));
      && o.sent == [] && o.nav == []
      && o.state == s.(sortType := PrevSortType(s.sortType), view := ViewOf(items, s.filter, PrevSortType(s.sortType)))
  {
    SelectSortItemView(items, s);
  }

  /**
   * The page never needs its history: whatever keys were pressed, the view
   * is determined by the filter and the order alone.
   */
  lemma ViewDeterminedByFilterAndOrder(items: seq<BucketItem>, s1: PageState, s2: PageState)
    requires Inv(items, s1) && Inv(items, s2)
    requires s1.filter == s2.filter && s1.sortType == s2.sortType
    ensures s1.view == s2.view
  {
  }
}
