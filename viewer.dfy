/** The selection logic of the pipeline viewer: which actions the user has
    ticked (by id), whether they form a run that may be grouped, the request a
    named group sends to the pipeline, select-all, and which outcomes are shown
    on the map. Each helper computes the next value of a piece of view state
    from the current one. */
module PipelineViewer {
  import opened JsArray
  import opened JsText
  import opened Actions
  import opened Outcomes
  import opened IndexSort

  /** An outcome shown on the map, with the colour it is drawn in. */
  datatype ShadedOutcome = ShadedOutcome(id: string, color: string)

  /** What the group-name dialog asks the pipeline for. Looking up index -1
      in the action list yields undefined, here `None`. */
  datatype GroupRequest = GroupRequest(items: seq<Option<ActionObject>>, name: string)

  /** The selection after the dialog closes and the request it sent, if any. */
  datatype Submission = Submission(selection: seq<string>, request: Option<GroupRequest>)

  /** Every action has an id of its own. */
  predicate UniqueIds(actions: seq<ActionObject>)
  {
    forall i, j :: 0 <= i < j < |actions| ==> actions[i].id != actions[j].id
  }

  /** `actions.findIndex(action => action.id === id)`. */
  function IdIndex(actions: seq<ActionObject>, id: string): (i: int)
    ensures -1 <= i < |actions|
    ensures i == -1 <==> forall k :: 0 <= k < |actions| ==> actions[k].id != id
    ensures 0 <= i ==> actions[i].id == id && forall k :: 0 <= k < i ==> actions[k].id != id
  {
    if |actions| == 0 then -1
    else if actions[0].id == id then 0
    else
      var j := IdIndex(actions[1..], id);
      if j == -1 then -1 else j + 1
  }

  /** With unique ids, the index of an action's id is that action's position. */
  lemma IdIndexUnique(actions: seq<ActionObject>, k: nat)
    requires UniqueIds(actions) && k < |actions|
    ensures IdIndex(actions, actions[k].id) == k
  {
  }

  /** The list index of every selected id, in selection order. */
  function SelectedIndices(actions: seq<ActionObject>, selected: seq<string>): (r: seq<int>)
    ensures |r| == |selected|
    ensures forall k :: 0 <= k < |r| ==> -1 <= r[k] < |actions|
    ensures forall k :: 0 <= k < |r| && r[k] != -1 ==> actions[r[k]].id == selected[k]
  {
    seq(|selected|, k requires 0 <= k < |selected| => IdIndex(actions, selected[k]))
  }

  /** `actions[index]` for each index: undefined (`None`) off the list. */
  function ItemsAt(actions: seq<ActionObject>, indices: seq<int>): (r: seq<Option<ActionObject>>)
    ensures |r| == |indices|
    ensures forall k :: 0 <= k < |r| ==> (r[k].None? <==> indices[k] < 0 || indices[k] >= |actions|)
  {
    seq(|indices|, k requires 0 <= k < |indices| =>
      if 0 <= indices[k] < |actions| then Some(actions[indices[k]]) else None)
  }

  /** The actions lo, ..., lo+n-1 in list order. */
  function RunFrom(actions: seq<ActionObject>, lo: nat, n: nat): (r: seq<Option<ActionObject>>)
    requires lo + n <= |actions|
    ensures |r| == n
  {
    seq(n, k requires 0 <= k < n => Some(actions[lo + k]))
  }

  // ---------------------------------------------------------------------
  // Is the selection a run of neighbouring actions?
  // ---------------------------------------------------------------------

  /** The check as the code writes it: fewer than two ids is never a run;
      otherwise the indices, sorted by `sort()` without a comparator (so by
      their text), must step by one. */
  predicate ConsecutiveAsWritten(actions: seq<ActionObject>, selected: seq<string>)
    ensures ConsecutiveAsWritten(actions, selected) ==>
      && |selected| > 1
      && TextSort(SelectedIndices(actions, selected))
           == Range(TextSort(SelectedIndices(actions, selected))[0], |selected|)
  {
    var sorted := TextSort(SelectedIndices(actions, selected));
    if |selected| <= 1 || !Steps(sorted) then false
    else
      StepsRange(sorted);
      true
  }

  /** The check with the indices sorted by value, as evidently intended. */
  predicate Consecutive(actions: seq<ActionObject>, selected: seq<string>)
    ensures Consecutive(actions, selected) ==>
      && |selected| > 1
      && NumericSort(SelectedIndices(actions, selected))
           == Range(NumericSort(SelectedIndices(actions, selected))[0], |selected|)
  {
    var sorted := NumericSort(SelectedIndices(actions, selected));
    if |selected| <= 1 || !Steps(sorted) then false
    else
      StepsRange(sorted);
      true
  }

  /** The selection counts as a run exactly when there are at least two ids
      and their indices are lo, lo+1, ..., in some order. */
  lemma ConsecutiveMeansRange(actions: seq<ActionObject>, selected: seq<string>)
    ensures Consecutive(actions, selected) <==>
      |selected| > 1 &&
      exists lo :: multiset(SelectedIndices(actions, selected)) == multiset(Range(lo, |selected|))
  {
    var xs := SelectedIndices(actions, selected);
    if Consecutive(actions, selected) {
      var s := NumericSort(xs);
      StepsRange(s);
      NumericSortAscending(xs);
      assert multiset(xs) == multiset(Range(s[0], |selected|));
    }
    if |selected| > 1 && exists lo :: multiset(xs) == multiset(Range(lo, |selected|)) {
      var lo :| multiset(xs) == multiset(Range(lo, |selected|));
      NumericSortRange(xs, lo);
      RangeSteps(lo, |selected|);
    }
  }

  /** Whatever the text-sorted check accepts, the numeric one accepts too, and
      for such a selection both sorts agree: the written check only ever
      refuses too much. */
  lemma AsWrittenAccepts(actions: seq<ActionObject>, selected: seq<string>)
    requires ConsecutiveAsWritten(actions, selected)
    ensures Consecutive(actions, selected)
    ensures TextSort(SelectedIndices(actions, selected)) == NumericSort(SelectedIndices(actions, selected))
  {
    var xs := SelectedIndices(actions, selected);
    var t := TextSort(xs);
    StepsRange(t);
    assert multiset(xs) == multiset(Range(t[0], |xs|));
    NumericSortRange(xs, t[0]);
    ConsecutiveMeansRange(actions, selected);
  }

  /** The text of 10 sorts before the text of 9. */
  lemma TenBeforeNine()
    ensures TextSort([9, 10]) == [10, 9]
    ensures NumericSort([9, 10]) == [9, 10]
  {
    assert [9, 10][..1] == [9];
    SortOne(9, TextBefore);
    assert NatToDecimal(10) == NatToDecimal(1) + [Digit(0)];
    assert TextBefore(10, 9);
    NineBeforeTen();
  }

  /** By value, 9 comes first. */
  lemma NineBeforeTen()
    ensures NumericSort([9, 10]) == [9, 10]
  {
    SortOne(9, ValueBefore);
    InsertAfter(10, 9, ValueBefore);
  }

  /** A single index sorts to itself, in any order. */
  lemma SortOne(x: int, before: (int, int) -> bool)
    ensures SortBy([x], before) == [x]
  {
    assert [x][..0] == [];
  }

  /** Sorting the pair [y, x] where x does not come before y leaves it. */
  lemma InsertAfter(x: int, y: int, before: (int, int) -> bool)
    requires !before(x, y) && SortBy([y], before) == [y]
    ensures SortBy([y, x], before) == [y, x]
  {
    assert [y, x][..1] == [y];
    assert Insert(x, [y], before) == [y] + Insert(x, [], before);
  }

  /** With eleven actions, ticking the last two (indices 9 and 10) is a run,
      but the text-sorted check refuses it. */
  lemma NineTenRefused(actions: seq<ActionObject>, selected: seq<string>)
    requires UniqueIds(actions) && |actions| == 11
    requires selected == [actions[9].id, actions[10].id]
    ensures SelectedIndices(actions, selected) == [9, 10]
    ensures Consecutive(actions, selected)
    ensures !ConsecutiveAsWritten(actions, selected)
  {
    NineTenIndices(actions, selected);
    TenBeforeNine();
    NineTenSteps();
  }

  /** The ids of the last two of eleven actions are found at 9 and 10. */
  lemma NineTenIndices(actions: seq<ActionObject>, selected: seq<string>)
    requires UniqueIds(actions) && |actions| == 11
    requires selected == [actions[9].id, actions[10].id]
    ensures SelectedIndices(actions, selected) == [9, 10]
  {
    IdIndexUnique(actions, 9);
    IdIndexUnique(actions, 10);
  }

  /** 9, 10 steps by one; 10, 9 does not. */
  lemma NineTenSteps()
    ensures Steps([9, 10]) && !Steps([10, 9])
  {
    assert [10, 9][0] != [10, 9][1] - 1;
  }

  // ---------------------------------------------------------------------
  // Submitting the group dialog
  // ---------------------------------------------------------------------

  /** The dialog's submit as the code writes it: cancel (`null`) requests
      nothing and keeps the selection; a name clears the selection and asks
      for a group of the selected actions, sorted by the text of their
      indices. */
  function SubmitGroupAsWritten(actions: seq<ActionObject>, selected: seq<string>, value: Option<string>): (r: Submission)
    ensures value.None? ==> r == Submission(selected, None)
    ensures value.Some? ==> r.selection == [] && r.request.Some? && r.request.value.name == value.value
    ensures value.Some? ==> |r.request.value.items| == |selected|
    ensures value.Some? ==> exists s ::
      && multiset(s) == multiset(SelectedIndices(actions, selected)) && OrderedBy(s, TextBefore)
      && r.request.value.items == ItemsAt(actions, s)
  {
    if value.None? then Submission(selected, None)
    else
      var s := TextSort(SelectedIndices(actions, selected));
      Submission([], Some(GroupRequest(ItemsAt(actions, s), value.value)))
  }

  /** The submit with the indices sorted by value, as evidently intended. */
  function SubmitGroup(actions: seq<ActionObject>, selected: seq<string>, value: Option<string>): (r: Submission)
    ensures value.None? ==> r == Submission(selected, None)
    ensures value.Some? ==> r.selection == [] && r.request.Some? && r.request.value.name == value.value
    ensures value.Some? ==> |r.request.value.items| == |selected|
    ensures value.Some? ==> exists s ::
      && multiset(s) == multiset(SelectedIndices(actions, selected)) && Ascending(s)
      && r.request.value.items == ItemsAt(actions, s)
  {
    if value.None? then Submission(selected, None)
    else
      var s := NumericSort(SelectedIndices(actions, selected));
      NumericSortAscending(SelectedIndices(actions, selected));
      Submission([], Some(GroupRequest(ItemsAt(actions, s), value.value)))
  }

  /** The value-sorted check that also asks for every selected id to be on
      the list, so that a stale id left ticked cannot join a group. */
  predicate ConsecutiveOnList(actions: seq<ActionObject>, selected: seq<string>)
  {
    Consecutive(actions, selected) && forall k :: 0 <= k < |selected| ==> IdIndex(actions, selected[k]) != -1
  }

  /** A run of existing actions is requested as that run of the list, in list
      order: the shape grouping in the pipeline expects, with no undefined
      item. */
  lemma SubmitGroupInListOrder(actions: seq<ActionObject>, selected: seq<string>, name: string)
    requires ConsecutiveOnList(actions, selected)
    ensures exists lo: nat :: (lo + |selected| <= |actions| &&
      SubmitGroup(actions, selected, Some(name)).request.value.items == RunFrom(actions, lo, |selected|))
  {
    var lo := SortedRun(actions, selected);
    ItemsAtRange(actions, lo, |selected|);
    SubmitGroupItems(actions, selected, name);
    assert lo + |selected| <= |actions| &&
      SubmitGroup(actions, selected, Some(name)).request.value.items == RunFrom(actions, lo, |selected|);
  }

  /** A submitted name requests the actions at the value-sorted indices. */
  lemma SubmitGroupItems(actions: seq<ActionObject>, selected: seq<string>, name: string)
    ensures SubmitGroup(actions, selected, Some(name)).request.value.items
        == ItemsAt(actions, NumericSort(SelectedIndices(actions, selected)))
  {
  }

  /** The value-sorted indices of a run of present ids are lo, ..., lo+n-1
      for some lo with the whole run on the list. */
  lemma SortedRun(actions: seq<ActionObject>, selected: seq<string>) returns (lo: nat)
    requires Consecutive(actions, selected)
    requires forall k :: 0 <= k < |selected| ==> IdIndex(actions, selected[k]) != -1
    ensures lo + |selected| <= |actions|
    ensures NumericSort(SelectedIndices(actions, selected)) == Range(lo, |selected|)
  {
    var xs := SelectedIndices(actions, selected);
    var s := NumericSort(xs);
    var n := |selected|;
    StepsRange(s);
    NumericSortAscending(xs);
    InList(xs, s[0], actions);
    InList(xs, s[n - 1], actions);
    lo := s[0];
  }

  /** An index that occurs among the selected indices of present ids lies on the list. */
  lemma InList(xs: seq<int>, v: int, actions: seq<ActionObject>)
    requires forall k :: 0 <= k < |xs| ==> -1 <= xs[k] < |actions| && xs[k] != -1
    requires v in multiset(xs)
    ensures 0 <= v < |actions|
  {
  }

  /** The items at a range of indices are that run of the list. */
  lemma ItemsAtRange(actions: seq<ActionObject>, lo: nat, n: nat)
    requires lo + n <= |actions|
    ensures ItemsAt(actions, Range(lo, n)) == RunFrom(actions, lo, n)
  {
  }

  /** Two neighbouring actions are ticked and the second is then deleted with
      its own button, which leaves the selection as it was. On the remaining
      list the deleted id has index -1, and both checks accept [0, -1]: "-1"
      precedes "0" as text too. The request then holds undefined first. The
      check that asks for every id to be on the list refuses it. */
  lemma StaleSelectionGroups(kept: ActionObject, gone: string, name: string)
    requires kept.id != gone
    ensures SelectedIndices([kept], [kept.id, gone]) == [0, -1]
    ensures ConsecutiveAsWritten([kept], [kept.id, gone]) && Consecutive([kept], [kept.id, gone])
    ensures SubmitGroupAsWritten([kept], [kept.id, gone], Some(name)).request.value.items == [None, Some(kept)]
    ensures SubmitGroup([kept], [kept.id, gone], Some(name)).request.value.items == [None, Some(kept)]
    ensures !ConsecutiveOnList([kept], [kept.id, gone])
  {
    StaleIndices(kept, gone);
    MinusOneFirst();
    assert Steps([-1, 0]);
    assert ItemsAt([kept], [-1, 0]) == [None, Some(kept)];
  }

  /** On the list that is left, the kept id is at 0 and the deleted one at -1. */
  lemma StaleIndices(kept: ActionObject, gone: string)
    requires kept.id != gone
    ensures SelectedIndices([kept], [kept.id, gone]) == [0, -1]
  {
    assert IdIndex([kept], gone) == -1;
  }

  /** Both sorts put -1 before 0: by value, and because "-" precedes "0". */
  lemma MinusOneFirst()
    ensures TextSort([0, -1]) == [-1, 0] && NumericSort([0, -1]) == [-1, 0]
  {
    assert IntToString(-1) == "-1" && IntToString(0) == "0";
    assert TextBefore(-1, 0);
    SortOne(0, TextBefore);
    SortOne(0, ValueBefore);
    assert [0, -1][..1] == [0];
  }

  /** When the written check lets the dialog open, the written submit sends
      the same request as the intended one. */
  lemma SubmitGroupAgrees(actions: seq<ActionObject>, selected: seq<string>, value: Option<string>)
    requires ConsecutiveAsWritten(actions, selected)
    ensures SubmitGroupAsWritten(actions, selected, value) == SubmitGroup(actions, selected, value)
  {
    AsWrittenAccepts(actions, selected);
  }

  /** Submitting a name for the last two of eleven actions asks for them in
      reverse list order. */
  lemma NineTenReversed(actions: seq<ActionObject>, selected: seq<string>, name: string)
    requires UniqueIds(actions) && |actions| == 11
    requires selected == [actions[9].id, actions[10].id]
    ensures SubmitGroupAsWritten(actions, selected, Some(name)).request.value.items == [Some(actions[10]), Some(actions[9])]
    ensures SubmitGroup(actions, selected, Some(name)).request.value.items == [Some(actions[9]), Some(actions[10])]
  {
    NineTenRefused(actions, selected);
    TenBeforeNine();
    ItemsAtPair(actions, 10, 9);
    ItemsAtPair(actions, 9, 10);
  }

  /** Looking up two positions on the list. */
  lemma ItemsAtPair(actions: seq<ActionObject>, i: nat, j: nat)
    requires i < |actions| && j < |actions|
    ensures ItemsAt(actions, [i, j]) == [Some(actions[i]), Some(actions[j])]
  {
  }

  // ---------------------------------------------------------------------
  // Ticking and select-all
  // ---------------------------------------------------------------------

  /** Ticking appends the id; unticking removes every occurrence of it. */
  function SetSelected(selected: seq<string>, id: string, tick: bool): (r: seq<string>)
    ensures tick ==> |r| == |selected| + 1 && r[..|selected|] == selected && r[|selected|] == id
    ensures !tick ==> id !in r && forall x :: x != id ==> multiset(r)[x] == multiset(selected)[x]
  {
    if tick then selected + [id] else Without(selected, id)
  }

  /** Ticking then unticking an id leaves the selection without that id, so
      exactly as it was when the id was not ticked before. */
  lemma TickUntick(selected: seq<string>, id: string)
    ensures SetSelected(SetSelected(selected, id, true), id, false) == Without(selected, id)
    ensures id !in selected ==> SetSelected(SetSelected(selected, id, true), id, false) == selected
  {
    WithoutConcat(selected, [id], id);
    assert Without([id], id) == [] + Without([id][1..], id);
  }

  /** The ids of all actions, in list order. */
  function Ids(actions: seq<ActionObject>): (r: seq<string>)
    ensures |r| == |actions|
  {
    seq(|actions|, k requires 0 <= k < |actions| => actions[k].id)
  }

  /** Select-all: when as many ids are selected as there are actions, clear
      the selection; otherwise select every action, in list order. */
  function SelectAll(actions: seq<ActionObject>, selected: seq<string>): (r: seq<string>)
    ensures |selected| == |actions| ==> r == []
    ensures |selected| != |actions| ==>
      |r| == |actions| && forall k :: 0 <= k < |actions| ==> r[k] == actions[k].id
  {
    if |selected| == |actions| then [] else Ids(actions)
  }

  /** Pressing select-all twice on a partial selection of a non-empty list
      ends with nothing selected; on a full one, with everything selected. */
  lemma SelectAllTwice(actions: seq<ActionObject>, selected: seq<string>)
    requires |actions| > 0
    ensures |selected| != |actions| ==> SelectAll(actions, SelectAll(actions, selected)) == []
    ensures |selected| == |actions| ==> SelectAll(actions, SelectAll(actions, selected)) == Ids(actions)
  {
  }

  /** `actions.find(action => action.id === id)`. */
  function FindById(actions: seq<ActionObject>, id: string): (r: Option<ActionObject>)
    ensures r.None? <==> forall k :: 0 <= k < |actions| ==> actions[k].id != id
    ensures r.Some? ==> r.value == actions[IdIndex(actions, id)]
  {
    var i := IdIndex(actions, id);
    if i == -1 then None else Some(actions[i])
  }

  /** Ungrouping is offered when exactly one id is selected and the action
      with that id is a composite. */
  predicate GroupIsSelected(actions: seq<ActionObject>, selected: seq<string>)
  {
    |selected| == 1 && FindById(actions, selected[0]).Some? &&
    FindById(actions, selected[0]).value.kind == TypeComposite
  }

  /** With unique ids: exactly one id is ticked and it names a composite
      action of the list. */
  lemma GroupIsSelectedMeans(actions: seq<ActionObject>, selected: seq<string>)
    requires UniqueIds(actions)
    ensures GroupIsSelected(actions, selected) <==>
      |selected| == 1 &&
      exists k :: 0 <= k < |actions| && actions[k].id == selected[0] && actions[k].kind == TypeComposite
  {
    if |selected| == 1 && exists k :: 0 <= k < |actions| && actions[k].id == selected[0] && actions[k].kind == TypeComposite {
      var k :| 0 <= k < |actions| && actions[k].id == selected[0] && actions[k].kind == TypeComposite;
      IdIndexUnique(actions, k);
    }
  }

  // ---------------------------------------------------------------------
  // Outcomes shown on the map
  // ---------------------------------------------------------------------

  /** Some entry of the shown list has this id. */
  predicate Shown(visible: seq<ShadedOutcome>, id: string)
  {
    exists k :: 0 <= k < |visible| && visible[k].id == id
  }

  /** `visible.filter(outcome => outcome.id !== id)`. */
  function Hide(visible: seq<ShadedOutcome>, id: string): (r: seq<ShadedOutcome>)
    ensures |r| <= |visible|
  {
    if |visible| == 0 then []
    else (if visible[0].id == id then [] else [visible[0]]) + Hide(visible[1..], id)
  }

  /** Hiding keeps exactly the entries with another id. */
  lemma {:induction false} HideMembers(visible: seq<ShadedOutcome>, id: string)
    ensures forall e :: e in Hide(visible, id) <==> e in visible && e.id != id
  {
    if |visible| > 0 {
      HideMembers(visible[1..], id);
      assert visible == [visible[0]] + visible[1..];
    }
  }

  /** Hiding an id that is not shown changes nothing. */
  lemma {:induction false} HideAbsent(visible: seq<ShadedOutcome>, id: string)
    requires !Shown(visible, id)
    ensures Hide(visible, id) == visible
  {
    if |visible| > 0 {
      assert !Shown(visible[1..], id) by {
        forall k | 0 <= k < |visible[1..]| ensures visible[1..][k].id != id {
          assert visible[1..][k] == visible[k + 1];
        }
      }
      HideAbsent(visible[1..], id);
      assert visible[0].id != id;
    }
  }

  /** Clicking an outcome's eye: hide it when it is shown, otherwise show it
      in the colour `shade` derives from its id. */
  function ToggleVisibleOutcome(visible: seq<ShadedOutcome>, id: string, shade: string -> string): (r: seq<ShadedOutcome>)
    ensures Shown(r, id) <==> !Shown(visible, id)
    ensures forall x :: x != id ==> (Shown(r, x) <==> Shown(visible, x))
    ensures forall e :: e in r && e.id != id ==> e in visible
    ensures !Shown(visible, id) ==> r == visible + [ShadedOutcome(id, shade(id))]
  {
    if Shown(visible, id) then
      var h := Hide(visible, id);
      HideMembers(visible, id);
      assert forall x :: Shown(h, x) ==> h[0] in h;
      assert forall k :: 0 <= k < |visible| && visible[k].id != id ==> visible[k] in h;
      h
    else
      var r := visible + [ShadedOutcome(id, shade(id))];
      assert r[|visible|].id == id;
      assert forall k :: 0 <= k < |visible| ==> r[k] == visible[k];
      r
  }

  /** Two clicks restore which outcomes are shown, and restore the list itself
      when the outcome was hidden to begin with. */
  lemma ToggleTwice(visible: seq<ShadedOutcome>, id: string, shade: string -> string)
    ensures forall x ::
      Shown(ToggleVisibleOutcome(ToggleVisibleOutcome(visible, id, shade), id, shade), x) <==> Shown(visible, x)
    ensures !Shown(visible, id) ==>
      ToggleVisibleOutcome(ToggleVisibleOutcome(visible, id, shade), id, shade) == visible
  {
    if !Shown(visible, id) {
      var once := visible + [ShadedOutcome(id, shade(id))];
      assert once[|visible|].id == id;
      assert Shown(once, id);
      HideConcat(visible, ShadedOutcome(id, shade(id)));
    }
  }

  /** Hiding looks at the first entry, then at the rest. */
  lemma HideCons(x: ShadedOutcome, s: seq<ShadedOutcome>, id: string)
    ensures Hide([x] + s, id) == (if x.id == id then [] else [x]) + Hide(s, id)
  {
    assert ([x] + s)[1..] == s;
  }

  /** Hiding distributes over concatenation. */
  lemma {:induction false} HideAppend(a: seq<ShadedOutcome>, b: seq<ShadedOutcome>, id: string)
    ensures Hide(a + b, id) == Hide(a, id) + Hide(b, id)
  {
    if |a| == 0 {
      assert a + b == b;
    } else {
      var head := if a[0].id == id then [] else [a[0]];
      ConsSplit(a, b);
      HideCons(a[0], a[1..] + b, id);
      HideCons(a[0], a[1..], id);
      HideAppend(a[1..], b, id);
      Associative(head, Hide(a[1..], id), Hide(b, id));
    }
  }

  /** Hiding the id of an entry just appended after entries without that id
      removes exactly that entry. */
  lemma HideConcat(visible: seq<ShadedOutcome>, e: ShadedOutcome)
    requires !Shown(visible, e.id)
    ensures Hide(visible + [e], e.id) == visible
  {
    HideAppend(visible, [e], e.id);
    HideAbsent(visible, e.id);
    assert [e][1..] == [];
  }

  /** `selectedIds.filter(id => outcomes[id]).map(id => ({id, color}))`: every
      outcome object is truthy, so an id passes when it has an outcome. */
  function ShadeSelected(selected: seq<string>, outcomes: OutcomeMap, shade: string -> string): (r: seq<ShadedOutcome>)
    ensures forall e :: e in r <==> e.id in selected && e.id in outcomes && e.color == shade(e.id)
    ensures |selected| == 1 ==>
      r == if selected[0] in outcomes then [ShadedOutcome(selected[0], shade(selected[0]))] else []
  {
    if |selected| == 0 then []
    else
      assert selected == [selected[0]] + selected[1..];
      (if selected[0] in outcomes then [ShadedOutcome(selected[0], shade(selected[0]))] else [])
        + ShadeSelected(selected[1..], outcomes, shade)
  }

  /** Shading distributes over concatenation, so together with the one-id
      case the shaded list keeps the selection's order. */
  lemma {:induction false} ShadeSelectedAppend(a: seq<string>, b: seq<string>, outcomes: OutcomeMap,
                                               shade: string -> string)
    ensures ShadeSelected(a + b, outcomes, shade) == ShadeSelected(a, outcomes, shade) + ShadeSelected(b, outcomes, shade)
  {
    if |a| == 0 {
      assert a + b == b;
    } else {
      var head := if a[0] in outcomes then [ShadedOutcome(a[0], shade(a[0]))] else [];
      ConsSplit(a, b);
      ShadeCons(a[0], a[1..] + b, outcomes, shade);
      ShadeCons(a[0], a[1..], outcomes, shade);
      ShadeSelectedAppend(a[1..], b, outcomes, shade);
      Associative(head, ShadeSelected(a[1..], outcomes, shade), ShadeSelected(b, outcomes, shade));
    }
  }

  /** Shading looks at the first id, then at the rest. */
  lemma ShadeCons(x: string, s: seq<string>, outcomes: OutcomeMap, shade: string -> string)
    ensures ShadeSelected([x] + s, outcomes, shade)
      == (if x in outcomes then [ShadedOutcome(x, shade(x))] else []) + ShadeSelected(s, outcomes, shade)
  {
    assert ([x] + s)[1..] == s;
  }

  /** The eye button for the selection: nothing happens with no selection;
      when the first selected outcome is shown, every outcome is hidden;
      otherwise the shown outcomes become exactly the selected ids that have
      an outcome. */
  function HideRevealSelected(selected: seq<string>, visible: seq<ShadedOutcome>, outcomes: OutcomeMap,
                              shade: string -> string): (r: seq<ShadedOutcome>)
    ensures |selected| == 0 ==> r == visible
    ensures |selected| > 0 && Shown(visible, selected[0]) ==> r == []
    ensures |selected| > 0 && !Shown(visible, selected[0]) ==>
      forall x :: Shown(r, x) <==> x in selected && x in outcomes
  {
    if |selected| == 0 then visible
    else if Shown(visible, selected[0]) then []
    else
      var r := ShadeSelected(selected, outcomes, shade);
      assert forall x :: x in selected && x in outcomes ==> ShadedOutcome(x, shade(x)) in r;
      r
  }

  /** Pressing the eye button twice: when the first selected id has an
      outcome, the second press hides everything the first revealed; when it
      has none, the second press reveals the same list again. */
  lemma HideRevealTwice(selected: seq<string>, visible: seq<ShadedOutcome>, outcomes: OutcomeMap,
                        shade: string -> string)
    requires |selected| > 0 && !Shown(visible, selected[0])
    ensures var once := HideRevealSelected(selected, visible, outcomes, shade);
      selected[0] in outcomes ==> HideRevealSelected(selected, once, outcomes, shade) == []
    ensures var once := HideRevealSelected(selected, visible, outcomes, shade);
      selected[0] !in outcomes ==> HideRevealSelected(selected, once, outcomes, shade) == once
  {
    var once := HideRevealSelected(selected, visible, outcomes, shade);
    assert selected[0] in selected;
    if selected[0] in outcomes {
      assert Shown(once, selected[0]);
    }
  }
}
