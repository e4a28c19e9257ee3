/** The fold that turns the action list into a result, shared by every store:
    walk the list left to right; skip an inactive action; otherwise hand the
    accumulator to the first registered handler for the action's kind, or
    skip the action when none is registered. The built-in composite handler
    folds the composite's own items the same way, so composites may nest.
    The accumulator type `A` is `Acc` (dataset and outcomes) for the store of
    src/classes/Store.ts and the bare dataset for the two earlier stores. */
module Reducer {
  import opened JsArray
  import opened Actions

  /** A registered handler: the built-in composite handler, or a handler for
      one kind of leaf action given by what it computes. */
  datatype Handler<!A> =
    | CompositeHandler
    | Atomic(kind: string, handle: (A, ActionObject) -> A)

  /** The kind a handler is registered for. */
  function KindOf<A>(h: Handler<A>): string
  {
    if h.CompositeHandler? then TypeComposite else h.kind
  }

  /** `handlers.find(h => h.type === kind)`, as the position of the first
      handler registered for the kind, or -1. */
  function Lookup<A>(handlers: seq<Handler<A>>, kind: string): (i: int)
    ensures -1 <= i < |handlers|
    ensures i == -1 <==> forall j :: 0 <= j < |handlers| ==> KindOf(handlers[j]) != kind
    ensures 0 <= i ==> KindOf(handlers[i]) == kind
    ensures 0 <= i ==> forall j :: 0 <= j < i ==> KindOf(handlers[j]) != kind
  {
    if |handlers| == 0 then -1
    else if KindOf(handlers[0]) == kind then 0
    else
      var i := Lookup(handlers[1..], kind);
      if i == -1 then -1 else i + 1
  }

  /** Registering one more handler never shadows an earlier one: lookups that
      succeeded before give the same handler, and only a kind that had no
      handler can now find the new one. */
  lemma LookupAfterAdd<A>(handlers: seq<Handler<A>>, h: Handler<A>, kind: string)
    ensures Lookup(handlers + [h], kind) ==
      if Lookup(handlers, kind) != -1 then Lookup(handlers, kind)
      else if KindOf(h) == kind then |handlers| else -1
  {
    var hs := handlers + [h];
    var i := Lookup(handlers, kind);
    if i != -1 {
      assert hs[i] == handlers[i];
    } else {
      assert forall j :: 0 <= j < |handlers| ==> hs[j] == handlers[j];
      assert hs[|handlers|] == h;
    }
  }

  /** One step of the fold: what the accumulator becomes after the action r. */
  function Step<A>(objects: Objects, handlers: seq<Handler<A>>, acc: A, r: Ref): (next: A)
    requires WellFormed(objects) && r in objects
    ensures !objects[r].active ==> next == acc
    ensures Lookup(handlers, objects[r].kind) == -1 ==> next == acc
    decreases r + 1, 0
  {
    var action := objects[r];
    if !action.active then acc
    else
      var i := Lookup(handlers, action.kind);
      if i == -1 then acc
      else
        match handlers[i]
        case CompositeHandler =>
          ItemsBelow(objects, r);
          Fold(objects, handlers, acc, action.items)
        case Atomic(_, handle) => handle(acc, action)
  }

  /** `refs.reduce(step, acc)`. */
  function Fold<A>(objects: Objects, handlers: seq<Handler<A>>, acc: A, refs: seq<Ref>): (r: A)
    requires WellFormed(objects) && AllIn(refs, objects)
    ensures (forall i :: 0 <= i < |refs| ==> !objects[refs[i]].active) ==> r == acc
    decreases Bound(refs), |refs|
  {
    if |refs| == 0 then acc
    else
      assert refs[0] in refs;
      TailBound(refs);
      Fold(objects, handlers, Step(objects, handlers, acc, refs[0]), refs[1..])
  }

  /** The references of the list whose actions are active, in list order. */
  function ActiveOnly(objects: Objects, refs: seq<Ref>): (r: seq<Ref>)
    requires AllIn(refs, objects)
    ensures forall x :: x in r <==> x in refs && objects[x].active
  {
    if |refs| == 0 then []
    else
      assert refs[0] in refs;
      assert forall x :: x in refs <==> x == refs[0] || x in refs[1..];
      (if objects[refs[0]].active then [refs[0]] else []) + ActiveOnly(objects, refs[1..])
  }

  /** Folding a concatenation folds the first part, then the second from
      where the first left off. */
  lemma {:induction false} FoldAppend<A>(objects: Objects, handlers: seq<Handler<A>>, acc: A, a: seq<Ref>, b: seq<Ref>)
    requires WellFormed(objects) && AllIn(a, objects) && AllIn(b, objects)
    ensures AllIn(a + b, objects)
    ensures Fold(objects, handlers, acc, a + b) == Fold(objects, handlers, Fold(objects, handlers, acc, a), b)
    decreases |a|
  {
    if |a| == 0 {
      assert a + b == b;
    } else {
      assert a[0] in a;
      assert (a + b)[0] == a[0] && (a + b)[1..] == a[1..] + b;
      FoldAppend(objects, handlers, Step(objects, handlers, acc, a[0]), a[1..], b);
    }
  }

  /** Inactive actions contribute nothing: the fold over a list equals the
      fold over its active actions alone. */
  lemma {:induction false} FoldActiveOnly<A>(objects: Objects, handlers: seq<Handler<A>>, acc: A, refs: seq<Ref>)
    requires WellFormed(objects) && AllIn(refs, objects)
    ensures Fold(objects, handlers, acc, refs) == Fold(objects, handlers, acc, ActiveOnly(objects, refs))
    decreases |refs|
  {
    if |refs| > 0 {
      assert refs[0] in refs;
      var rest := ActiveOnly(objects, refs[1..]);
      var next := Step(objects, handlers, acc, refs[0]);
      FoldActiveOnly(objects, handlers, next, refs[1..]);
      if objects[refs[0]].active {
        assert ([refs[0]] + rest)[0] == refs[0] && ([refs[0]] + rest)[1..] == rest;
      } else {
        assert [] + rest == rest;
      }
    }
  }

  /** An action that is inactive, or whose kind has no handler, can be
      dropped from anywhere in the list without changing the result: the
      actions after it are still processed. */
  lemma Skipped<A>(objects: Objects, handlers: seq<Handler<A>>, acc: A, before: seq<Ref>, r: Ref, after: seq<Ref>)
    requires WellFormed(objects) && AllIn(before, objects) && r in objects && AllIn(after, objects)
    requires !objects[r].active || Lookup(handlers, objects[r].kind) == -1
    ensures AllIn(before + [r] + after, objects) && AllIn(before + after, objects)
    ensures Fold(objects, handlers, acc, before + [r] + after) == Fold(objects, handlers, acc, before + after)
  {
    var mid := Fold(objects, handlers, acc, before);
    FoldAppend(objects, handlers, acc, before + [r], after);
    FoldAppend(objects, handlers, acc, before, [r]);
    FoldAppend(objects, handlers, acc, before, after);
    assert [r][1..] == [];
  }

  /** An active composite, when "composite" resolves to the built-in handler,
      acts exactly as its items would at its position in the list. */
  lemma Inlined<A>(objects: Objects, handlers: seq<Handler<A>>, acc: A, before: seq<Ref>, r: Ref, after: seq<Ref>)
    requires WellFormed(objects) && AllIn(before, objects) && r in objects && AllIn(after, objects)
    requires objects[r].active && objects[r].kind == TypeComposite
    requires Lookup(handlers, TypeComposite) != -1 && handlers[Lookup(handlers, TypeComposite)].CompositeHandler?
    ensures AllIn(before + [r] + after, objects) && AllIn(before + objects[r].items + after, objects)
    ensures Fold(objects, handlers, acc, before + [r] + after)
         == Fold(objects, handlers, acc, before + objects[r].items + after)
  {
    var items := objects[r].items;
    assert AllIn(items, objects);
    FoldAppend(objects, handlers, acc, before + [r], after);
    FoldAppend(objects, handlers, acc, before, [r]);
    FoldAppend(objects, handlers, acc, before + items, after);
    FoldAppend(objects, handlers, acc, before, items);
    assert [r][1..] == [];
  }

  /** Adding objects to the table does not change the fold of a list whose
      objects were already there. */
  lemma {:induction false} FoldFrame<A>(objects: Objects, bigger: Objects, handlers: seq<Handler<A>>, acc: A, refs: seq<Ref>)
    requires WellFormed(objects) && WellFormed(bigger) && Extends(bigger, objects) && AllIn(refs, objects)
    ensures AllIn(refs, bigger)
    ensures Fold(bigger, handlers, acc, refs) == Fold(objects, handlers, acc, refs)
    decreases Bound(refs), |refs|
  {
    if |refs| > 0 {
      assert refs[0] in refs;
      TailBound(refs);
      StepFrame(objects, bigger, handlers, acc, refs[0]);
      FoldFrame(objects, bigger, handlers, Step(objects, handlers, acc, refs[0]), refs[1..]);
    }
  }

  lemma {:induction false} StepFrame<A>(objects: Objects, bigger: Objects, handlers: seq<Handler<A>>, acc: A, r: Ref)
    requires WellFormed(objects) && WellFormed(bigger) && Extends(bigger, objects) && r in objects
    ensures r in bigger
    ensures Step(bigger, handlers, acc, r) == Step(objects, handlers, acc, r)
    decreases r + 1, 0
  {
    var action := objects[r];
    if action.active {
      var i := Lookup(handlers, action.kind);
      if i != -1 && handlers[i].CompositeHandler? {
        ItemsBelow(objects, r);
        FoldFrame(objects, bigger, handlers, acc, action.items);
      }
    }
  }
}
