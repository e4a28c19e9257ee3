/** The store of src/classes/Store.ts: a handler registry with the built-in
    composite handler first, and a result `{state, outcomes}` recomputed from
    the initial dataset every time the action list changes. */
module OutcomeStore {
  import opened JsArray
  import opened Geo
  import opened Actions
  import opened Outcomes
  import opened Reducer
  import MoveHandlers
  import ElevationPlot

  /** A registered listener, by handle: listeners are compared by identity. */
  type Listener = nat

  /** One state-listener call: who was called, with the store's name, state
      and outcomes at the time. */
  datatype Notice = Notice(listener: Listener, name: string, state: Option<FeatureCollection>, outcomes: OutcomeMap)

  /** The move handlers as they are registered. */
  function MoveHandler(dir: MoveHandlers.Direction): Handler<Acc>
  {
    Atomic(MoveHandlers.KindOf(dir), (acc, action) => MoveHandlers.Moved(acc, dir, action))
  }

  /** The property-plot handler as it is registered. */
  function PlotHandler(): Handler<Acc>
  {
    Atomic(ElevationPlot.PropertyPlot, (acc, action) => ElevationPlot.Plotted(acc, action))
  }

  /** `(data as any).name || 'unknown'`: a missing or empty name reads as
      "unknown". */
  function NameOf(data: FeatureCollection): (name: string)
    ensures data.name.Some? && data.name.value != "" ==> name == data.name.value
    ensures data.name.None? || data.name.value == "" ==> name == "unknown"
  {
    if data.name.Some? && data.name.value != "" then data.name.value else "unknown"
  }

  /** One notice per listener, in registration order. */
  ghost function Notices(listeners: seq<Listener>, name: string, state: Option<FeatureCollection>,
                         outcomes: OutcomeMap): seq<Notice>
  {
    seq(|listeners|, i requires 0 <= i < |listeners| => Notice(listeners[i], name, state, outcomes))
  }

  class Store {
    var currentState: Option<FeatureCollection>
    var initialState: Option<FeatureCollection>
    var handlers: seq<Handler<Acc>>
    var stateListeners: seq<Listener>
    var outcomes: OutcomeMap
    var name: string
    /** Every state-listener call so far. */
    ghost var notified: seq<Notice>

    /** The composite handler is registered first, and no listener is
        registered twice. */
    ghost predicate Valid()
      reads this
    {
      |handlers| > 0 && handlers[0].CompositeHandler? && Distinct(stateListeners)
    }

    /** One call per registered listener, with the current name, state and
        outcomes. */
    ghost function Broadcast(): seq<Notice>
      reads this
    {
      Notices(stateListeners, name, currentState, outcomes)
    }

    constructor()
      ensures Valid()
      ensures currentState.None? && initialState.None?
      ensures handlers == [CompositeHandler] && stateListeners == []
      ensures outcomes == map[] && name == "pending" && notified == []
    {
      currentState := None;
      initialState := None;
      handlers := [CompositeHandler];
      stateListeners := [];
      outcomes := map[];
      name := "pending";
      notified := [];
    }

    /** In a valid store "composite" always resolves, to the built-in
        handler, whatever was registered after it. */
    lemma CompositeResolves()
      requires Valid()
      ensures Lookup(handlers, TypeComposite) == 0
    {
    }

    method AddHandler(h: Handler<Acc>)
      requires Valid()
      modifies this
      ensures Valid()
      ensures handlers == old(handlers) + [h]
      ensures currentState == old(currentState) && initialState == old(initialState)
      ensures outcomes == old(outcomes) && name == old(name)
      ensures stateListeners == old(stateListeners) && notified == old(notified)
    {
      handlers := handlers + [h];
    }

    /** `addStateListener`: a listener already registered is not added again. */
    method AddStateListener(listener: Listener)
      requires Valid()
      modifies this
      ensures Valid()
      ensures listener in stateListeners
      ensures stateListeners == if listener in old(stateListeners) then old(stateListeners)
                                else old(stateListeners) + [listener]
      ensures currentState == old(currentState) && initialState == old(initialState)
      ensures handlers == old(handlers) && outcomes == old(outcomes) && name == old(name)
      ensures notified == old(notified)
    {
      if listener !in stateListeners {
        stateListeners := stateListeners + [listener];
      }
    }

    method GetInitialState() returns (s: Option<FeatureCollection>)
      ensures s == initialState
    {
      s := initialState;
    }

    /** `setInitialState` once its fetch has delivered `data`: the data becomes
        the initial state, its name the store's name, and the result is
        recomputed. */
    method SetInitialState(data: FeatureCollection, objects: Objects, actions: seq<Ref>)
      requires Valid() && WellFormed(objects) && AllIn(actions, objects)
      modifies this
      ensures Valid()
      ensures initialState == Some(data) && name == NameOf(data)
      ensures var result := Fold(objects, handlers, Acc(data, map[]), actions);
        currentState == Some(result.state) && outcomes == result.outcomes
      ensures handlers == old(handlers) && stateListeners == old(stateListeners)
      ensures notified == old(notified) + Broadcast()
    {
      initialState := Some(data);
      name := NameOf(data);
      UpdateState(objects, actions);
    }

    /** The pipeline's list listener: recompute for the new list. */
    method ActionsListener(objects: Objects, actions: seq<Ref>)
      requires Valid() && WellFormed(objects) && AllIn(actions, objects)
      modifies this
      ensures Valid()
      ensures initialState == old(initialState) && name == old(name)
      ensures handlers == old(handlers) && stateListeners == old(stateListeners)
      ensures old(initialState).None? ==>
        currentState == old(currentState) && outcomes == old(outcomes) && notified == old(notified)
      ensures old(initialState).Some? ==>
        var result := Fold(objects, handlers, Acc(initialState.value, map[]), actions);
        && currentState == Some(result.state) && outcomes == result.outcomes
        && notified == old(notified) + Broadcast()
    {
      UpdateState(objects, actions);
    }

    /** `updateState`: without an initial state nothing happens and no one is
        told; otherwise the list is folded from the initial state with an
        empty outcome map, so the result depends on nothing but the initial
        state, the list and the registry, and listeners are told. */
    method UpdateState(objects: Objects, actions: seq<Ref>)
      requires Valid() && WellFormed(objects) && AllIn(actions, objects)
      modifies this
      ensures Valid()
      ensures initialState == old(initialState) && name == old(name)
      ensures handlers == old(handlers) && stateListeners == old(stateListeners)
      ensures old(initialState).None? ==>
        currentState == old(currentState) && outcomes == old(outcomes) && notified == old(notified)
      ensures old(initialState).Some? ==>
        var result := Fold(objects, handlers, Acc(initialState.value, map[]), actions);
        && currentState == Some(result.state) && outcomes == result.outcomes
        && notified == old(notified) + Broadcast()
    {
      if initialState.None? {
        return;
      }
      var result := Fold(objects, handlers, Acc(initialState.value, map[]), actions);
      currentState := Some(result.state);
      outcomes := result.outcomes;
      notified := notified + Broadcast();
    }
  }
}
