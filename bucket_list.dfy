/**
 * `BucketListPage` (src/pages/bucket_list.rs) as a class whose fields the
 * key handling updates in place.  The filter input and the sort dialog
 * cursor are kept as the two fields the page reads from those widgets; the
 * events sent on the channel and the navigation asked of the scroll list
 * are recorded in ghost logs.
 */
module BucketList {
  import opened BucketView
  import opened BucketListSpec

  class BucketListPage {
    const items: seq<BucketItem>
    var view: seq<nat>
    var viewState: ViewState
    var listState: ListState
    /** The text of the filter input dialog. */
    var filter: string
    /** The order under the sort dialog's cursor. */
    var sortType: SortType
    /** The events sent to the application, oldest first. */
    ghost var sent: seq<AppEvent>
    /** The moves asked of the scroll list, oldest first. */
    ghost var navigated: seq<NavCommand>

    function State(): PageState
      reads this
    {
      PageState(view, viewState, listState, filter, sortType)
    }

    predicate Valid()
      reads this
    {
      Inv(items, State())
    }

    /** `new`: every bucket, in the order given. */
    constructor (items: seq<BucketItem>)
      ensures this.items == items && State() == Init(items)
      ensures sent == [] && navigated == []
      ensures Valid()
    {
      this.items := items;
      view := Range(|items|);
      viewState := ViewState.Default;
      listState := NewListState(|items|);
      filter := [];
      sortType := SortType.Default;
      sent := [];
      navigated := [];
      InitInv(items);
    }

    /** `handle_key`: one key press, as `Step` describes it. */
    method HandleKey(key: Key)
      requires Valid()
      modifies this
      ensures Valid()
      ensures State() == Step(items, old(State()), key).state
      ensures sent == old(sent) + Step(items, old(State()), key).sent
      ensures navigated == old(navigated) + Step(items, old(State()), key).nav
    {
      if viewState == ViewState.Default {
        HandleDefaultKey(key);
      } else if viewState == FilterDialog {
        HandleFilterDialogKey(key);
      } else {
        HandleSortDialogKey(key);
      }
    }

    /** The default-view arm of `handle_key`. */
    method HandleDefaultKey(key: Key)
      requires Valid() && viewState == ViewState.Default
      modifies this`sent, this`navigated, this`viewState, this`filter, this`view, this`listState
      ensures Valid()
      ensures State() == Step(items, old(State()), key).state
      ensures sent == old(sent) + Step(items, old(State()), key).sent
      ensures navigated == old(navigated) + Step(items, old(State()), key).nav
    {
      match key {
        case Esc => DefaultEscKey();
        case Enter => DefaultEnterKey();
        case Char(c) => DefaultCharKey(c);
        case _ => assert Step(items, State(), key) == Quiet(State());
      }
    }

    /** Esc in the default view: quit when no filter is set, otherwise clear it. */
    method DefaultEscKey()
      requires Valid() && viewState == ViewState.Default
      modifies this`sent, this`filter, this`view, this`listState
      ensures Valid()
      ensures State() == Step(items, old(State()), Esc).state
      ensures sent == old(sent) + Step(items, old(State()), Esc).sent
      ensures navigated == old(navigated) + Step(items, old(State()), Esc).nav
    {
      ghost var s0 := State();
      if filter == [] {
        sent := sent + [Quit];
        assert Step(items, s0, Esc) == Send(s0, Quit);
      } else {
        ResetFilter();
        assert Step(items, s0, Esc) == Quiet(BucketListSpec.ResetFilter(items, s0));
      }
    }

    /** Enter in the default view: open the selected bucket, if there is one. */
    method DefaultEnterKey()
      requires Valid() && viewState == ViewState.Default
      modifies this`sent
      ensures Valid()
      ensures State() == Step(items, old(State()), Enter).state
      ensures sent == old(sent) + Step(items, old(State()), Enter).sent
      ensures navigated == old(navigated) + Step(items, old(State()), Enter).nav
    {
      ghost var s0 := State();
      if view != [] {  // `non_empty`
        sent := sent + [BucketListMoveDown];
        assert Step(items, s0, Enter) == Send(s0, BucketListMoveDown);
      } else {
        assert Step(items, s0, Enter) == Quiet(s0);
      }
    }

    /** The character keys of the default view. */
    method DefaultCharKey(c: char)
      requires Valid() && viewState == ViewState.Default
      modifies this`sent, this`navigated, this`viewState
      ensures Valid()
      ensures State() == Step(items, old(State()), Char(c)).state
      ensures sent == old(sent) + Step(items, old(State()), Char(c)).sent
      ensures navigated == old(navigated) + Step(items, old(State()), Char(c)).nav
    {
      ghost var s0 := State();
      assert Step(items, s0, Char(c)) == DefaultStep(items, s0, Char(c));
      NavKeysFacts();
      var nonEmpty := view != [];  // `non_empty`
      if nonEmpty && c == 'j' {
        SelectNext();
      } else if nonEmpty && c == 'k' {
        SelectPrev();
      } else if nonEmpty && c == 'g' {
        SelectFirst();
      } else if nonEmpty && c == 'G' {
        SelectLast();
      } else if nonEmpty && c == 'f' {
        SelectNextPage();
      } else if nonEmpty && c == 'b' {
        SelectPrevPage();
      } else if nonEmpty && c == 'x' {
        sent := sent + [BucketListOpenManagementConsole];
      } else if c == '/' {
        OpenFilterDialog();
      } else if c == 'o' {
        OpenSortDialog();
      } else if c == '?' {
        sent := sent + [OpenHelp];
      }
    }

    /** The filter-dialog arm of `handle_key`. */
    method HandleFilterDialogKey(key: Key)
      requires Valid() && viewState == FilterDialog
      modifies this`sent, this`viewState, this`filter, this`view, this`listState
      ensures Valid()
      ensures State() == Step(items, old(State()), key).state
      ensures sent == old(sent) + Step(items, old(State()), key).sent
      ensures navigated == old(navigated) + Step(items, old(State()), key).nav
    {
      if key == Esc {
        FilterDialogEscKey();
      } else if key == Enter {
        FilterDialogEnterKey();
      } else if key == Char('?') {
        HelpKey(items, State());
        sent := sent + [OpenHelp];
      } else {
        FilterDialogEditKey(key);
      }
    }

    method FilterDialogEscKey()
      requires Valid() && viewState == FilterDialog
      modifies this`viewState, this`filter, this`view, this`listState
      ensures Valid()
      ensures State() == Step(items, old(State()), Esc).state
      ensures sent == old(sent) + Step(items, old(State()), Esc).sent
      ensures navigated == old(navigated) + Step(items, old(State()), Esc).nav
    {
      ghost var s0 := State();
      CloseFilterDialog();
      assert Step(items, s0, Esc) == Quiet(BucketListSpec.CloseFilterDialog(items, s0));
    }

    method FilterDialogEnterKey()
      requires Valid() && viewState == FilterDialog
      modifies this`viewState, this`view, this`listState
      ensures Valid()
      ensures State() == Step(items, old(State()), Enter).state
      ensures sent == old(sent) + Step(items, old(State()), Enter).sent
      ensures navigated == old(navigated) + Step(items, old(State()), Enter).nav
    {
      ghost var s0 := State();
      ApplyFilter();
      assert Step(items, s0, Enter) == Quiet(BucketListSpec.ApplyFilter(items, s0));
    }

    /** Any other key goes to the filter input, and the view follows the new filter. */
    method FilterDialogEditKey(key: Key)
      requires Valid() && viewState == FilterDialog
      requires key != Esc && key != Enter && key != Char('?')
      modifies this`filter, this`view, this`listState
      ensures Valid()
      ensures State() == Step(items, old(State()), key).state
      ensures sent == old(sent) + Step(items, old(State()), key).sent
      ensures navigated == old(navigated) + Step(items, old(State()), key).nav
    {
      ghost var s0 := State();
      filter := EditInput(filter, key);
      FilterViewIndices();
      assert Step(items, s0, key) == Quiet(EditFilter(items, s0, key));
    }

    /** The sort-dialog arm of `handle_key`. */
    method HandleSortDialogKey(key: Key)
      requires Valid() && viewState == SortDialog
      modifies this`sent, this`viewState, this`sortType, this`view
      ensures Valid()
      ensures State() == Step(items, old(State()), key).state
      ensures sent == old(sent) + Step(items, old(State()), key).sent
      ensures navigated == old(navigated) + Step(items, old(State()), key).nav
    {
      if key == Esc {
        SortDialogEscKey();
      } else if key == Enter {
        SortDialogEnterKey();
      } else if key == Char('j') || key == Char('k') {
        SortDialogMoveKey(key == Char('j'));
      } else if key == Char('?') {
        HelpKey(items, State());
        sent := sent + [OpenHelp];
      } else {
        assert Step(items, State(), key) == Quiet(State());
      }
    }

    method SortDialogEscKey()
      requires Valid() && viewState == SortDialog
      modifies this`viewState, this`sortType, this`view
      ensures Valid()
      ensures State() == Step(items, old(State()), Esc).state
      ensures sent == old(sent) + Step(items, old(State()), Esc).sent
      ensures navigated == old(navigated) + Step(items, old(State()), Esc).nav
    {
      ghost var s0 := State();
      CloseSortDialogView(items, s0);
      CloseSortDialog();
      assert Step(items, s0, Esc) == Quiet(BucketListSpec.CloseSortDialog(items, s0));
    }

    method SortDialogEnterKey()
      requires Valid() && viewState == SortDialog
      modifies this`viewState, this`view
      ensures Valid()
      ensures State() == Step(items, old(State()), Enter).state
      ensures sent == old(sent) + Step(items, old(State()), Enter).sent
      ensures navigated == old(navigated) + Step(items, old(State()), Enter).nav
    {
      ghost var s0 := State();
      ApplySortView(items, s0);
      ApplySort();
      assert Step(items, s0, Enter) == Quiet(BucketListSpec.ApplySort(items, s0));
    }

    /** 'j' (`down`) or 'k' in the sort dialog: move the cursor and resort. */
    method SortDialogMoveKey(down: bool)
      requires Valid() && viewState == SortDialog
      modifies this`sortType, this`view
      ensures Valid()
      ensures State() == Step(items, old(State()), Char(if down then 'j' else 'k')).state
      ensures sent == old(sent) + Step(items, old(State()), Char(if down then 'j' else 'k')).sent
      ensures navigated == old(navigated) + Step(items, old(State()), Char(if down then 'j' else 'k')).nav
    {
      ghost var s0 := State();
      SelectSortItemView(items, s0);
      if down {
        SelectNextSortItem();
        assert Step(items, s0, Char('j')) == Quiet(BucketListSpec.SelectNextSortItem(items, s0));
      } else {
        SelectPrevSortItem();
        assert Step(items, s0, Char('k')) == Quiet(BucketListSpec.SelectPrevSortItem(items, s0));
      }
    }

    method SelectNext()
      modifies this`navigated
      ensures navigated == old(navigated) + [Next]
    {
      navigated := navigated + [Next];
    }

    method SelectPrev()
      modifies this`navigated
      ensures navigated == old(navigated) + [Prev]
    {
      navigated := navigated + [Prev];
    }

    method SelectFirst()
      modifies this`navigated
      ensures navigated == old(navigated) + [First]
    {
      navigated := navigated + [First];
    }

    method SelectLast()
      modifies this`navigated
      ensures navigated == old(navigated) + [Last]
    {
      navigated := navigated + [Last];
    }

    method SelectNextPage()
      modifies this`navigated
      ensures navigated == old(navigated) + [NextPage]
    {
      navigated := navigated + [NextPage];
    }

    method SelectPrevPage()
      modifies this`navigated
      ensures navigated == old(navigated) + [PrevPage]
    {
      navigated := navigated + [PrevPage];
    }

    method OpenFilterDialog()
      modifies this`viewState
      ensures State() == BucketListSpec.OpenFilterDialog(old(State()))
    {
      viewState := FilterDialog;
    }

    method CloseFilterDialog()
      modifies this`viewState, this`filter, this`view, this`listState
      ensures State() == BucketListSpec.CloseFilterDialog(items, old(State()))
      ensures Valid()
    {
      viewState := ViewState.Default;
      ResetFilter();
    }

    method OpenSortDialog()
      modifies this`viewState
      ensures State() == BucketListSpec.OpenSortDialog(old(State()))
    {
      viewState := SortDialog;
    }

    method CloseSortDialog()
      requires InRange(items, view)
      modifies this`viewState, this`sortType, this`view
      ensures State() == BucketListSpec.CloseSortDialog(items, old(State()))
    {
      viewState := ViewState.Default;
      sortType := SortType.Default;
      SortViewIndices();
    }

    method ApplyFilter()
      modifies this`viewState, this`view, this`listState
      ensures State() == BucketListSpec.ApplyFilter(items, old(State()))
      ensures Valid()
    {
      viewState := ViewState.Default;
      FilterViewIndices();
    }

    method ResetFilter()
      modifies this`filter, this`view, this`listState
      ensures State() == BucketListSpec.ResetFilter(items, old(State()))
      ensures Valid()
    {
      filter := [];
      FilterViewIndices();
    }

    /** `filter_view_indices`: the matches in item order, a fresh list state, then the sort. */
    method FilterViewIndices()
      modifies this`view, this`listState
      ensures State() == FilterView(items, old(State()))
      ensures Valid()
    {
      view := FilterIndices(items, filter);
      listState := NewListState(|view|);
      SortViewIndices();
      FilterViewInv(items, old(State()));
    }

    method ApplySort()
      requires InRange(items, view)
      modifies this`viewState, this`view
      ensures State() == BucketListSpec.ApplySort(items, old(State()))
    {
      viewState := ViewState.Default;
      SortViewIndices();
    }

    method SelectNextSortItem()
      requires InRange(items, view)
      modifies this`sortType, this`view
      ensures State() == BucketListSpec.SelectNextSortItem(items, old(State()))
    {
      sortType := NextSortType(sortType);
      SortViewIndices();
    }

    method SelectPrevSortItem()
      requires InRange(items, view)
      modifies this`sortType, this`view
      ensures State() == BucketListSpec.SelectPrevSortItem(items, old(State()))
    {
      sortType := PrevSortType(sortType);
      SortViewIndices();
    }

    /** `sort_view_indices`: a stable sort of the view by the order under the dialog's cursor. */
    method SortViewIndices()
      requires InRange(items, view)
      modifies this`view
      ensures State() == SortView(items, old(State()))
      ensures multiset(view) == multiset(old(view)) && SortedBy(items, sortType, view)
    {
      SortSorted(items, sortType, view);
      SortPermutes(items, sortType, view);
      view := SortIndices(items, sortType, view);
    }

    /**
     * `current_selected_item`; the source panics when the selection is
     * outside the view.  The item shown as selected always matches the filter.
     */
    function CurrentSelectedItem(): (item: BucketItem)
      reads this
      requires Valid() && listState.selected < |view|
      ensures item == items[view[listState.selected]]
      ensures Contains(item.name, filter)
    {
      ViewMatchesFilter(items, State());
      items[view[listState.selected]]
    }

    /** `non_empty`: some bucket matches the filter. */
    function NonEmpty(): (nonEmpty: bool)
      reads this
      requires Valid()
      ensures nonEmpty <==> exists i :: 0 <= i < |items| && Contains(items[i].name, filter)
    {
      ViewMatchesFilter(items, State());
      assert view != [] ==> view[0] < |items| && Contains(items[view[0]].name, filter);
      view != []
    }
  }
}
