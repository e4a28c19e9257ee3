/** The action-list manager of src/Pipeline.ts: it owns the top-level list of
    actions and a counter from which every id is made, edits the list in
    place, and tells its listeners about every change. */
module PipelineEngine {
  import opened JsArray
  import opened JsText
  import opened Actions
  import opened ActionList

  /** A registered listener, by handle: listeners are compared by identity. */
  type Listener = nat

  /** Every object of the table was made by a pipeline whose counter is at
      `index`: its reference is the counter value that became its id. */
  ghost predicate IssuedUpTo(objects: Objects, index: nat)
  {
    forall r :: r in objects ==> 0 < r <= index && objects[r].id == NatToDecimal(r)
  }

  /** Storing an object under the next counter value, with that value as its
      id, keeps the table well formed and issued. */
  lemma IssueNext(objects: Objects, index: nat, a: ActionObject)
    requires WellFormed(objects) && IssuedUpTo(objects, index) && AllIn(a.items, objects)
    ensures index + 1 !in objects
    ensures WellFormed(objects[index + 1 := a.(id := NatToDecimal(index + 1))])
    ensures IssuedUpTo(objects[index + 1 := a.(id := NatToDecimal(index + 1))], index + 1)
  {
    StoreFresh(objects, index + 1, a.(id := NatToDecimal(index + 1)));
  }

  /** Grouping under the next counter value: the composite's reference is
      new, the table stays well formed and issued, and the grouped list refers
      only to objects of the new table. */
  lemma IssueGroup(objects: Objects, index: nat, list: seq<Ref>, selected: seq<Ref>, name: string)
    requires WellFormed(objects) && IssuedUpTo(objects, index)
    requires AllIn(list, objects) && AllIn(selected, objects)
    ensures var t := objects[index + 1 := NewComposite(NatToDecimal(index + 1), name, selected)];
      && index + 1 !in objects && WellFormed(t) && IssuedUpTo(t, index + 1)
      && AllIn(Grouped(list, selected, index + 1), t)
  {
    var a := NewComposite(NatToDecimal(index + 1), name, selected);
    IssueNext(objects, index, a);
    assert a.(id := NatToDecimal(index + 1)) == a;
    GroupedAllIn(objects, list, selected, index + 1, a);
  }

  /** Removal touches only the items of one composite, so it keeps ids and
      the table stays well formed and issued. */
  lemma RemovedStaysIssued(objects: Objects, list: seq<Ref>, r: Ref, index: nat)
    requires WellFormed(objects) && AllIn(list, objects) && IssuedUpTo(objects, index)
    ensures WellFormed(RemovedObjects(objects, list, r))
    ensures IssuedUpTo(RemovedObjects(objects, list, r), index)
    ensures AllIn(Without(list, r), RemovedObjects(objects, list, r))
  {
    RemovedWellFormed(objects, list, r);
  }

  class Pipeline {
    /** The top-level list. */
    var actions: seq<Ref>
    /** Every action object the pipeline has made, by reference. */
    var objects: Objects
    /** The id counter: the last id issued. */
    var index: nat
    var actionsListeners: seq<Listener>
    /** Each listener call so far, as the list it was given. */
    ghost var notified: seq<seq<Ref>>

    ghost predicate Valid()
      reads this
    {
      WellFormed(objects) && AllIn(actions, objects) && IssuedUpTo(objects, index)
    }

    /** One call per registered listener, each given the list. */
    ghost function Broadcast(list: seq<Ref>): seq<seq<Ref>>
      reads this
    {
      Repeat(|actionsListeners|, list)
    }

    constructor()
      ensures Valid()
      ensures actions == [] && objects == map[] && index == 0
      ensures actionsListeners == [] && notified == []
    {
      actions := [];
      objects := map[];
      index := 0;
      actionsListeners := [];
      notified := [];
    }

    /** Two objects of a valid pipeline never share an id: ids come from one
        counter that only grows. */
    lemma IdsDistinct()
      requires Valid()
      ensures forall p, q :: p in objects && q in objects && objects[p].id == objects[q].id ==> p == q
    {
      forall p, q | p in objects && q in objects && objects[p].id == objects[q].id
        ensures p == q
      {
        NatToDecimalInjective(p, q);
      }
    }

    /** The next id the counter will issue belongs to no existing object. */
    lemma NextIdFresh()
      requires Valid()
      ensures forall q :: q in objects ==> objects[q].id != NatToDecimal(index + 1)
    {
      forall q | q in objects ensures objects[q].id != NatToDecimal(index + 1) {
        if objects[q].id == NatToDecimal(index + 1) {
          NatToDecimalInjective(q, index + 1);
        }
      }
    }

    /** `addAction`: a copy of the action, with the next counter value as its
        id, goes at the end of the list; nothing else changes. Returns the
        copy's reference. */
    method AddAction(action: ActionObject) returns (r: Ref)
      requires Valid() && AllIn(action.items, objects)
      modifies this
      ensures Valid()
      ensures index == old(index) + 1 && r == index && r !in old(objects)
      ensures objects == old(objects)[r := action.(id := NatToDecimal(r))]
      ensures actions == old(actions) + [r]
      ensures forall q :: q in old(objects) ==> old(objects)[q].id != objects[r].id
      ensures actionsListeners == old(actionsListeners)
      ensures notified == old(notified) + Broadcast(actions)
    {
      NextIdFresh();
      IssueNext(objects, index, action);
      index := index + 1;
      r := index;
      objects := objects[r := action.(id := NatToDecimal(index))];
      actions := actions + [r];
      notified := notified + Broadcast(actions);
    }

    method AddActionsListener(listener: Listener)
      modifies this
      ensures actionsListeners == old(actionsListeners) + [listener]
      ensures actions == old(actions) && objects == old(objects) && index == old(index)
      ensures notified == old(notified)
    {
      actionsListeners := actionsListeners + [listener];
    }

    /** `removeAction`: from the top level when it is there, else from the
        first composite that holds it; either way listeners are told. */
    method RemoveAction(r: Ref)
      requires Valid()
      modifies this
      ensures Valid()
      ensures actions == Without(old(actions), r)
      ensures objects == RemovedObjects(old(objects), old(actions), r)
      ensures index == old(index) && actionsListeners == old(actionsListeners)
      ensures notified == old(notified) + Broadcast(actions)
    {
      ghost var table, list := objects, actions;
      RemovedStaysIssued(table, list, r, index);
      if r in actions {
        actions := Without(actions, r);
        assert objects == RemovedObjects(table, list, r);
      } else {
        var parent := ParentOf(objects, actions, r);
        if parent.Some? {
          var p := parent.value;
          objects := objects[p := objects[p].(items := Without(objects[p].items, r))];
        }
        assert objects == RemovedObjects(table, list, r);
      }
      actions := Without(actions, r);
      notified := notified + Broadcast(actions);
    }

    /** `ungroupAction`: a non-composite is refused and nothing happens;
        a composite is replaced by its items where it stood. */
    method UngroupAction(r: Ref)
      requires Valid() && r in objects
      modifies this
      ensures Valid()
      ensures objects == old(objects) && index == old(index)
      ensures actionsListeners == old(actionsListeners)
      ensures objects[r].kind != TypeComposite ==> actions == old(actions) && notified == old(notified)
      ensures objects[r].kind == TypeComposite ==>
        && actions == Ungrouped(old(actions), r, objects[r].items)
        && notified == old(notified) + Broadcast(actions)
    {
      if objects[r].kind != TypeComposite {
        return;
      }
      var items := objects[r].items;
      assert AllIn(items, objects);
      var i := FindIndex(actions, r);
      actions := Splice(actions, i, 1, []);
      actions := Splice(actions, i, 0, items);
      notified := notified + Broadcast(actions);
    }

    /** `groupActions`: a new composite, with the next id, holding the
        selection in the order given, goes where the first selected action
        was; every selected action leaves the top level. Returns the
        composite's reference. */
    method GroupActions(selected: seq<Ref>, name: string) returns (c: Ref)
      requires Valid() && AllIn(selected, objects)
      modifies this
      ensures Valid()
      ensures index == old(index) + 1 && c == index && c !in old(objects)
      ensures objects == old(objects)[c := NewComposite(NatToDecimal(c), name, selected)]
      ensures forall q :: q in old(objects) ==> old(objects)[q].id != objects[c].id
      ensures actions == Grouped(old(actions), selected, c)
      ensures actionsListeners == old(actionsListeners)
      ensures notified == old(notified) + Broadcast(actions)
    {
      NextIdFresh();
      IssueGroup(objects, index, actions, selected, name);
      index := index + 1;
      c := index;
      objects := objects[c := NewComposite(NatToDecimal(index), name, selected)];
      var firstIndex := FirstIndex(actions, selected);
      actions := Splice(actions, firstIndex, 0, [c]);
      actions := WithoutAll(actions, selected);
      notified := notified + Broadcast(actions);
    }

    /** `toggleActionActive`: the flag flips in place; list and ids stay. */
    method ToggleActionActive(r: Ref)
      requires Valid() && r in objects
      modifies this
      ensures Valid()
      ensures objects == Flip(old(objects), r)
      ensures actions == old(actions) && index == old(index)
      ensures actionsListeners == old(actionsListeners)
      ensures notified == old(notified) + Broadcast(actions)
    {
      FlipKeeps(objects, r);
      objects := Flip(objects, r);
      notified := notified + Broadcast(actions);
    }
  }
}
