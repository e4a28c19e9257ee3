/** Actions as the JavaScript code holds them: mutable objects compared by
    reference. An object table maps each reference to the object's current
    fields; changing a field in place is an update of the table, and `===` on
    actions is equality of references. */
module Actions {
  import opened JsArray

  /** A reference to an action object. */
  type Ref = nat

  /** The kind tag that selects the built-in composite handler. */
  const TypeComposite: string := "composite"

  /** The payloads the action templates carry. */
  datatype Payload =
    | MovePayload(direction: string, distance: real)
    | PlotPayload(field: string)
    | ScalePayload(factor: real)
    | SummarisePayload(operation: string)
    | NoPayload

  /** The fields of one action object (`BaseAction` with the `payload` of a leaf
      `Action` or the `items` of a `CompositeAction`; a leaf has no items).
      The source calls `kind` `type` and `title` `label`, both reserved words here. */
  datatype ActionObject = ActionObject(
    id: string,
    kind: string,
    title: string,
    version: string,
    active: bool,
    payload: Payload,
    items: seq<Ref>)

  /** The object table: every live action object by reference. */
  type Objects = map<Ref, ActionObject>

  /** Every item a composite holds is itself an object in the table, and was
      created before the composite (so nesting is finite). */
  ghost predicate WellFormed(objects: Objects)
  {
    forall r, x :: r in objects && x in objects[r].items ==> x in objects && x < r
  }

  /** Every reference in the list denotes an object of the table. */
  ghost predicate AllIn(refs: seq<Ref>, objects: Objects)
  {
    forall r :: r in refs ==> r in objects
  }

  /** Storing a new object, under a reference above every existing one and
      holding only existing objects, keeps the table well formed. */
  lemma StoreFresh(objects: Objects, r: Ref, a: ActionObject)
    requires WellFormed(objects) && AllIn(a.items, objects)
    requires forall q :: q in objects ==> q < r
    ensures r !in objects && WellFormed(objects[r := a])
  {
    var t := objects[r := a];
    forall q, x | q in t && x in t[q].items ensures x in t && x < q {
      if q == r {
        assert x in objects && x < r;
      } else {
        assert q in objects && t[q] == objects[q];
        assert x in objects[q].items;
      }
    }
    assert WellFormed(t);
  }

  /** `bigger` holds every object of `objects`, unchanged, and possibly more. */
  ghost predicate Extends(bigger: Objects, objects: Objects)
  {
    forall r :: r in objects ==> r in bigger && bigger[r] == objects[r]
  }

  /** One more than the largest reference in the list (0 for none): the measure
      on which folding nested composites terminates. */
  function Bound(refs: seq<Ref>): (b: nat)
    ensures forall r :: r in refs ==> r < b
    ensures b == 0 || exists i :: 0 <= i < |refs| && b == refs[i] + 1
  {
    if |refs| == 0 then 0
    else
      var rest := Bound(refs[1..]);
      assert forall r :: r in refs ==> r == refs[0] || r in refs[1..];
      if refs[0] + 1 > rest then refs[0] + 1 else rest
  }

  /** A list whose references all lie below n has its bound at most n. */
  lemma BoundBelow(refs: seq<Ref>, n: nat)
    requires forall r :: r in refs ==> r < n
    ensures Bound(refs) <= n
  {
    if Bound(refs) != 0 {
      var i :| 0 <= i < |refs| && Bound(refs) == refs[i] + 1;
      assert refs[i] in refs;
    }
  }

  /** The tail of a list holds only elements of the list, so its bound is no
      larger. */
  lemma TailBound(refs: seq<Ref>)
    requires |refs| > 0
    ensures forall x :: x in refs[1..] ==> x in refs
    ensures Bound(refs[1..]) <= Bound(refs)
  {
    forall x | x in refs[1..] ensures x in refs {
      var i :| 0 <= i < |refs[1..]| && refs[1..][i] == x;
      assert refs[i + 1] == x;
    }
    BoundBelow(refs[1..], Bound(refs));
  }

  /** In a well-formed table the items of an object lie below it. */
  lemma ItemsBelow(objects: Objects, r: Ref)
    requires WellFormed(objects) && r in objects
    ensures forall x :: x in objects[r].items ==> x in objects && x < r
    ensures Bound(objects[r].items) <= r
  {
    forall x | x in objects[r].items ensures x in objects && x < r {
    }
    BoundBelow(objects[r].items, r);
  }

  /** `action.active = !action.active` on the object r. */
  function Flip(objects: Objects, r: Ref): (t: Objects)
    requires r in objects
    ensures t.Keys == objects.Keys
    ensures t[r] == objects[r].(active := !objects[r].active) && t[r].active != objects[r].active
    ensures forall q :: q in objects && q != r ==> t[q] == objects[q]
  {
    objects[r := objects[r].(active := !objects[r].active)]
  }

  /** A flip changes only the flag, so a well-formed table stays well formed. */
  lemma FlipKeeps(objects: Objects, r: Ref)
    requires r in objects
    ensures WellFormed(objects) ==> WellFormed(Flip(objects, r))
  {
    var t := Flip(objects, r);
    if WellFormed(objects) {
      forall q, x | q in t && x in t[q].items ensures x in t && x < q {
        assert x in objects[q].items;
      }
    }
  }

  /** Flipping twice gives the table back. */
  lemma FlipTwice(objects: Objects, r: Ref)
    requires r in objects
    ensures Flip(Flip(objects, r), r) == objects
  {
  }
}
