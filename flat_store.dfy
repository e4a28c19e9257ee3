/** The first store, of src/state.ts: a flat list of leaf actions, handlers
    registered by the caller only (there is no composite handler), and a
    state refolded over the initial dataset after each change. Ids are the
    clock reading modulo 1000000, so they may repeat; actions are told apart
    by reference. */
module FlatStore {
  import opened JsArray
  import opened JsText
  import opened Geo
  import opened Actions
  import opened Reducer

  /** A registered listener, by handle. */
  type Listener = nat

  /** The id `addAction` gives: `'' + timestamp % 1000000`. */
  function StampId(timestamp: nat): (id: string)
    ensures 1 <= |id| <= 6
  {
    DecimalShape(timestamp % 1000000);
    assert Pow10(6) == 1000000;
    DecimalLength(timestamp % 1000000, 6);
    NatToDecimal(timestamp % 1000000)
  }

  class Store {
    var actions: seq<Ref>
    var objects: Objects
    /** The next unused reference. */
    var nextRef: nat
    var currentState: FeatureCollection
    /** Set once, by the constructor. */
    const initialState: FeatureCollection
    var handlers: seq<Handler<FeatureCollection>>
    var stateListeners: seq<Listener>
    var actionsListeners: seq<Listener>
    /** Every list-listener call so far, as the list it was given. */
    ghost var listsSent: seq<seq<Ref>>
    /** Every state-listener call so far, as the state it was given. */
    ghost var statesSent: seq<FeatureCollection>

    /** Leaf actions only, every reference below `nextRef`, and only the
        caller's handlers. */
    ghost predicate Valid()
      reads this
    {
      && (forall r :: r in objects ==> r < nextRef && objects[r].items == [])
      && AllIn(actions, objects)
      && (forall i :: 0 <= i < |handlers| ==> handlers[i].Atomic?)
    }

    /** The fold of the current list over the initial dataset. */
    ghost function Recomputed(): FeatureCollection
      reads this
      requires Valid()
    {
      assert WellFormed(objects);
      Fold(objects, handlers, initialState, actions)
    }

    constructor(initial: FeatureCollection)
      ensures Valid()
      ensures actions == [] && objects == map[] && nextRef == 0
      ensures currentState == initial && initialState == initial && handlers == []
      ensures stateListeners == [] && actionsListeners == []
      ensures listsSent == [] && statesSent == []
    {
      actions := [];
      objects := map[];
      nextRef := 0;
      currentState := initial;
      initialState := initial;
      handlers := [];
      stateListeners := [];
      actionsListeners := [];
      listsSent := [];
      statesSent := [];
    }

    /** `updateState`: refold and tell the state listeners. */
    method UpdateState()
      requires Valid()
      modifies this
      ensures Valid() && currentState == Recomputed()
      ensures actions == old(actions) && objects == old(objects) && nextRef == old(nextRef)
      ensures handlers == old(handlers)
      ensures stateListeners == old(stateListeners) && actionsListeners == old(actionsListeners)
      ensures listsSent == old(listsSent)
      ensures statesSent == old(statesSent) + Repeat(|stateListeners|, currentState)
    {
      assert WellFormed(objects);
      currentState := Fold(objects, handlers, initialState, actions);
      statesSent := statesSent + Repeat(|stateListeners|, currentState);
    }

    /** `addAction`: a copy, with an id of at most six digits from the clock
        reading, goes at the end of the list. Returns its reference. */
    method AddAction(action: ActionObject, timestamp: nat) returns (r: Ref)
      requires Valid() && action.items == []
      modifies this
      ensures Valid() && currentState == Recomputed()
      ensures |actions| == |old(actions)| + 1 && actions == old(actions) + [r]
      ensures r == old(nextRef) && r !in old(objects)
      ensures objects == old(objects)[r := action.(id := StampId(timestamp))]
      ensures |objects[r].id| <= 6
      ensures nextRef == r + 1 && handlers == old(handlers)
      ensures stateListeners == old(stateListeners) && actionsListeners == old(actionsListeners)
      ensures listsSent == old(listsSent) + Repeat(|actionsListeners|, actions)
      ensures statesSent == old(statesSent) + Repeat(|stateListeners|, currentState)
    {
      r := nextRef;
      nextRef := nextRef + 1;
      objects := objects[r := action.(id := StampId(timestamp))];
      actions := actions + [r];
      listsSent := listsSent + Repeat(|actionsListeners|, actions);
      UpdateState();
    }

    /** `addHandler` registers without refolding. */
    method AddHandler(h: Handler<FeatureCollection>)
      requires Valid() && h.Atomic?
      modifies this
      ensures Valid()
      ensures handlers == old(handlers) + [h]
      ensures currentState == old(currentState) && nextRef == old(nextRef)
      ensures actions == old(actions) && objects == old(objects)
      ensures stateListeners == old(stateListeners) && actionsListeners == old(actionsListeners)
      ensures listsSent == old(listsSent) && statesSent == old(statesSent)
    {
      handlers := handlers + [h];
    }

    method AddStateListener(listener: Listener)
      modifies this
      ensures stateListeners == old(stateListeners) + [listener]
      ensures actionsListeners == old(actionsListeners)
      ensures actions == old(actions) && objects == old(objects) && handlers == old(handlers)
      ensures currentState == old(currentState) && nextRef == old(nextRef)
      ensures listsSent == old(listsSent) && statesSent == old(statesSent)
    {
      stateListeners := stateListeners + [listener];
    }

    method AddActionsListener(listener: Listener)
      modifies this
      ensures actionsListeners == old(actionsListeners) + [listener]
      ensures stateListeners == old(stateListeners)
      ensures actions == old(actions) && objects == old(objects) && handlers == old(handlers)
      ensures currentState == old(currentState) && nextRef == old(nextRef)
      ensures listsSent == old(listsSent) && statesSent == old(statesSent)
    {
      actionsListeners := actionsListeners + [listener];
    }

    /** `modifyAction`: an index in range that is a whole number gets the new
        action and the state is refolded. A fractional index in range passes
        the same range test but names a property that is no element, so the
        list stays as it was and the state is still refolded and sent. Any
        other index changes nothing at all. Returns the reference the new
        action would be stored under. */
    method ModifyAction(index: real, newAction: ActionObject) returns (r: Ref)
      requires Valid() && newAction.items == []
      modifies this
      ensures Valid()
      ensures !(0.0 <= index < |old(actions)| as real) ==>
        && actions == old(actions) && objects == old(objects) && nextRef == old(nextRef)
        && currentState == old(currentState) && statesSent == old(statesSent)
      ensures 0.0 <= index < |old(actions)| as real && index.Floor as real == index ==>
        && r == old(nextRef) && r !in old(objects) && nextRef == r + 1
        && objects == old(objects)[r := newAction]
        && 0 <= index.Floor < |old(actions)|
        && actions == old(actions)[index.Floor := r]
      ensures 0.0 <= index < |old(actions)| as real && index.Floor as real != index ==>
        && actions == old(actions) && objects == old(objects) && nextRef == old(nextRef)
      ensures 0.0 <= index < |old(actions)| as real ==>
        && currentState == Recomputed()
        && statesSent == old(statesSent) + Repeat(|stateListeners|, currentState)
      ensures handlers == old(handlers) && listsSent == old(listsSent)
      ensures stateListeners == old(stateListeners) && actionsListeners == old(actionsListeners)
    {
      r := nextRef;
      if 0.0 <= index < |actions| as real {
        if index.Floor as real == index {
          nextRef := nextRef + 1;
          objects := objects[r := newAction];
          actions := actions[index.Floor := r];
        }
        UpdateState();
      }
    }

    /** `removeAction`: every occurrence leaves the list, the rest keep their
        order; then refold. */
    method RemoveAction(r: Ref)
      requires Valid()
      modifies this
      ensures Valid() && currentState == Recomputed()
      ensures actions == Without(old(actions), r) && objects == old(objects)
      ensures handlers == old(handlers) && nextRef == old(nextRef)
      ensures stateListeners == old(stateListeners) && actionsListeners == old(actionsListeners)
      ensures listsSent == old(listsSent) + Repeat(|actionsListeners|, actions)
      ensures statesSent == old(statesSent) + Repeat(|stateListeners|, currentState)
    {
      actions := Without(actions, r);
      listsSent := listsSent + Repeat(|actionsListeners|, actions);
      UpdateState();
    }

    /** `toggleActionActive`: an action not in the list is ignored; otherwise
        its flag flips in place and the state is refolded. */
    method ToggleActionActive(r: Ref)
      requires Valid()
      modifies this
      ensures Valid()
      ensures actions == old(actions) && handlers == old(handlers) && nextRef == old(nextRef)
      ensures stateListeners == old(stateListeners) && actionsListeners == old(actionsListeners)
      ensures listsSent == old(listsSent)
      ensures r !in old(actions) ==>
        objects == old(objects) && currentState == old(currentState) && statesSent == old(statesSent)
      ensures r in old(actions) ==>
        && objects == Flip(old(objects), r) && currentState == Recomputed()
        && statesSent == old(statesSent) + Repeat(|stateListeners|, currentState)
    {
      var index := FindIndex(actions, r);
      if index != -1 {
        var a := actions[index];
        FlipKeeps(objects, a);
        objects := Flip(objects, a);
        UpdateState();
      }
    }

    method GetState() returns (s: FeatureCollection)
      ensures s == currentState
    {
      s := currentState;
    }
  }
}
