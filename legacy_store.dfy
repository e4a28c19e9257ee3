/** The earlier combined store of src/Store.ts: it holds the action list, the
    object table and a state-only handler registry in one class, and refolds
    the list over the initial dataset after every list change. Ids come from
    the clock, which is a parameter here; since two ids may then coincide,
    actions are told apart by reference only. */
module LegacyStore {
  import opened JsArray
  import opened JsText
  import opened Geo
  import opened Actions
  import opened ActionList
  import opened Reducer

  /** A registered listener, by handle. */
  type Listener = nat

  class Store {
    var actions: seq<Ref>
    var objects: Objects
    /** The next unused reference. */
    var nextRef: nat
    var currentState: FeatureCollection
    /** Set once, by the constructor. */
    const initialState: FeatureCollection
    var handlers: seq<Handler<FeatureCollection>>
    var stateListeners: seq<Listener>
    var actionsListeners: seq<Listener>
    /** Every list-listener call so far, as the list it was given. */
    ghost var listsSent: seq<seq<Ref>>
    /** Every state-listener call so far, as the state it was given. */
    ghost var statesSent: seq<FeatureCollection>

    ghost predicate Valid()
      reads this
    {
      && WellFormed(objects) && AllIn(actions, objects)
      && (forall r :: r in objects ==> r < nextRef)
      && |handlers| > 0 && handlers[0].CompositeHandler?
    }

    /** The fold of the current list over the initial dataset. */
    ghost function Recomputed(): FeatureCollection
      reads this
      requires Valid()
    {
      Fold(objects, handlers, initialState, actions)
    }

    constructor(initial: FeatureCollection)
      ensures Valid()
      ensures actions == [] && objects == map[] && nextRef == 0
      ensures currentState == initial && initialState == initial
      ensures handlers == [CompositeHandler]
      ensures stateListeners == [] && actionsListeners == []
      ensures listsSent == [] && statesSent == []
    {
      actions := [];
      objects := map[];
      nextRef := 0;
      currentState := initial;
      initialState := initial;
      handlers := [CompositeHandler];
      stateListeners := [];
      actionsListeners := [];
      listsSent := [];
      statesSent := [];
    }

    /** `updateState`: refold and tell the state listeners. */
    method UpdateState()
      requires Valid()
      modifies this
      ensures Valid() && currentState == Recomputed()
      ensures actions == old(actions) && objects == old(objects) && nextRef == old(nextRef)
      ensures handlers == old(handlers)
      ensures stateListeners == old(stateListeners) && actionsListeners == old(actionsListeners)
      ensures listsSent == old(listsSent)
      ensures statesSent == old(statesSent) + Repeat(|stateListeners|, currentState)
    {
      currentState := Fold(objects, handlers, initialState, actions);
      statesSent := statesSent + Repeat(|stateListeners|, currentState);
    }

    /** `addAction`: a copy with an id made from the clock reading goes at the
        end of the list; returns the copy's reference. */
    method AddAction(action: ActionObject, timestamp: nat) returns (r: Ref)
      requires Valid() && AllIn(action.items, objects)
      modifies this
      ensures Valid() && currentState == Recomputed()
      ensures r == old(nextRef) && r !in old(objects)
      ensures objects == old(objects)[r := action.(id := NatToDecimal(timestamp))]
      ensures actions == old(actions) + [r]
      ensures nextRef == r + 1 && handlers == old(handlers)
      ensures stateListeners == old(stateListeners) && actionsListeners == old(actionsListeners)
      ensures listsSent == old(listsSent) + Repeat(|actionsListeners|, actions)
      ensures statesSent == old(statesSent) + Repeat(|stateListeners|, currentState)
    {
      StoreFresh(objects, nextRef, action.(id := NatToDecimal(timestamp)));
      r := nextRef;
      nextRef := nextRef + 1;
      objects := objects[r := action.(id := NatToDecimal(timestamp))];
      actions := actions + [r];
      listsSent := listsSent + Repeat(|actionsListeners|, actions);
      UpdateState();
    }

    /** `addHandler` registers without refolding. */
    method AddHandler(h: Handler<FeatureCollection>)
      requires Valid()
      modifies this
      ensures Valid()
      ensures handlers == old(handlers) + [h]
      ensures currentState == old(currentState) && nextRef == old(nextRef)
      ensures actions == old(actions) && objects == old(objects)
      ensures stateListeners == old(stateListeners) && actionsListeners == old(actionsListeners)
      ensures listsSent == old(listsSent) && statesSent == old(statesSent)
    {
      handlers := handlers + [h];
    }

    method AddStateListener(listener: Listener)
      modifies this
      ensures stateListeners == old(stateListeners) + [listener]
      ensures actionsListeners == old(actionsListeners)
      ensures actions == old(actions) && objects == old(objects) && handlers == old(handlers)
      ensures currentState == old(currentState) && nextRef == old(nextRef)
      ensures listsSent == old(listsSent) && statesSent == old(statesSent)
    {
      stateListeners := stateListeners + [listener];
    }

    method AddActionsListener(listener: Listener)
      modifies this
      ensures actionsListeners == old(actionsListeners) + [listener]
      ensures stateListeners == old(stateListeners)
      ensures actions == old(actions) && objects == old(objects) && handlers == old(handlers)
      ensures currentState == old(currentState) && nextRef == old(nextRef)
      ensures listsSent == old(listsSent) && statesSent == old(statesSent)
    {
      actionsListeners := actionsListeners + [listener];
    }

    /** `removeAction`: as in the pipeline, then refold. */
    method RemoveAction(r: Ref)
      requires Valid()
      modifies this
      ensures Valid() && currentState == Recomputed()
      ensures actions == Without(old(actions), r)
      ensures objects == RemovedObjects(old(objects), old(actions), r)
      ensures handlers == old(handlers) && nextRef == old(nextRef)
      ensures stateListeners == old(stateListeners) && actionsListeners == old(actionsListeners)
      ensures listsSent == old(listsSent) + Repeat(|actionsListeners|, actions)
      ensures statesSent == old(statesSent) + Repeat(|stateListeners|, currentState)
    {
      ghost var table, list := objects, actions;
      RemovedWellFormed(table, list, r);
      if r in actions {
        actions := Without(actions, r);
        assert objects == RemovedObjects(table, list, r);
      } else {
        var parent := ParentOf(objects, actions, r);
        if parent.Some? {
          var p := parent.value;
          objects := objects[p := objects[p].(items := Without(objects[p].items, r))];
        }
        assert objects == RemovedObjects(table, list, r);
      }
      actions := Without(actions, r);
      listsSent := listsSent + Repeat(|actionsListeners|, actions);
      UpdateState();
    }

    /** `ungroupAction`: a non-composite is refused with no refold; a
        composite is replaced by its items where it stood, then refold. */
    method UngroupAction(r: Ref)
      requires Valid() && r in objects
      modifies this
      ensures Valid()
      ensures objects == old(objects) && handlers == old(handlers) && nextRef == old(nextRef)
      ensures stateListeners == old(stateListeners) && actionsListeners == old(actionsListeners)
      ensures objects[r].kind != TypeComposite ==>
        && actions == old(actions) && currentState == old(currentState)
        && listsSent == old(listsSent) && statesSent == old(statesSent)
      ensures objects[r].kind == TypeComposite ==>
        && actions == Ungrouped(old(actions), r, objects[r].items) && currentState == Recomputed()
        && listsSent == old(listsSent) + Repeat(|actionsListeners|, actions)
        && statesSent == old(statesSent) + Repeat(|stateListeners|, currentState)
    {
      if objects[r].kind != TypeComposite {
        return;
      }
      var items := objects[r].items;
      assert AllIn(items, objects);
      var i := FindIndex(actions, r);
      actions := Splice(actions, i, 1, []);
      actions := Splice(actions, i, 0, items);
      listsSent := listsSent + Repeat(|actionsListeners|, actions);
      UpdateState();
    }

    /** `groupActions`: a new composite, with an id from the clock, replaces
        the selection at the first selected action's place, then refold.
        Returns the composite's reference. */
    method GroupActions(selected: seq<Ref>, name: string, timestamp: nat) returns (c: Ref)
      requires Valid() && AllIn(selected, objects)
      modifies this
      ensures Valid() && currentState == Recomputed()
      ensures c == old(nextRef) && c !in old(objects)
      ensures objects == old(objects)[c := NewComposite(NatToDecimal(timestamp), name, selected)]
      ensures actions == Grouped(old(actions), selected, c)
      ensures nextRef == c + 1 && handlers == old(handlers)
      ensures stateListeners == old(stateListeners) && actionsListeners == old(actionsListeners)
      ensures listsSent == old(listsSent) + Repeat(|actionsListeners|, actions)
      ensures statesSent == old(statesSent) + Repeat(|stateListeners|, currentState)
    {
      StoreFresh(objects, nextRef, NewComposite(NatToDecimal(timestamp), name, selected));
      c := nextRef;
      nextRef := nextRef + 1;
      objects := objects[c := NewComposite(NatToDecimal(timestamp), name, selected)];
      var firstIndex := FirstIndex(actions, selected);
      actions := Splice(actions, firstIndex, 0, [c]);
      actions := WithoutAll(actions, selected);
      GroupedAllIn(old(objects), old(actions), selected, c, objects[c]);
      listsSent := listsSent + Repeat(|actionsListeners|, actions);
      UpdateState();
    }

    /** `toggleActionActive`: flip the flag in place and refold; list
        listeners are not told. */
    method ToggleActionActive(r: Ref)
      requires Valid() && r in objects
      modifies this
      ensures Valid() && currentState == Recomputed()
      ensures objects == Flip(old(objects), r)
      ensures actions == old(actions) && handlers == old(handlers) && nextRef == old(nextRef)
      ensures stateListeners == old(stateListeners) && actionsListeners == old(actionsListeners)
      ensures listsSent == old(listsSent)
      ensures statesSent == old(statesSent) + Repeat(|stateListeners|, currentState)
    {
      FlipKeeps(objects, r);
      objects := Flip(objects, r);
      UpdateState();
    }

    method GetState() returns (s: FeatureCollection)
      ensures s == currentState
    {
      s := currentState;
    }
  }
}
