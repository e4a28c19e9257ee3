/** Grouping and ungrouping rearrange the list without changing what it
    computes: an active composite folds its items exactly where they stood. */
module Regrouping {
  import opened JsArray
  import opened Actions
  import opened ActionList
  import opened Reducer

  /** "composite" resolves to the built-in composite handler. */
  predicate CompositeResolves<A>(handlers: seq<Handler<A>>)
  {
    Lookup(handlers, TypeComposite) != -1 && handlers[Lookup(handlers, TypeComposite)].CompositeHandler?
  }

  /** Grouping a run of the list into a new composite, whose reference is
      above every existing one, leaves the fold's result as it was. */
  lemma GroupKeepsResult<A>(objects: Objects, handlers: seq<Handler<A>>, acc: A, list: seq<Ref>,
                            selected: seq<Ref>, i: nat, c: Ref, id: string, name: string)
    requires WellFormed(objects) && AllIn(list, objects) && Distinct(list)
    requires forall r :: r in objects ==> r < c
    requires |selected| > 0 && i + |selected| <= |list| && list[i..i + |selected|] == selected
    requires CompositeResolves(handlers)
    ensures var grouped := objects[c := NewComposite(id, name, selected)];
      && WellFormed(grouped) && AllIn(Grouped(list, selected, c), grouped)
      && Fold(grouped, handlers, acc, Grouped(list, selected, c)) == Fold(objects, handlers, acc, list)
  {
    var grouped := objects[c := NewComposite(id, name, selected)];
    var k := |selected|;
    var before, after := list[..i], list[i + k..];
    RunSplit(objects, list, selected, i);
    StoreFresh(objects, c, NewComposite(id, name, selected));
    assert c !in list;
    GroupedRun(list, selected, c, i);
    InGrouped(objects, grouped, before, c, after, NewComposite(id, name, selected));
    calc {
      Fold(grouped, handlers, acc, Grouped(list, selected, c));
      Fold(grouped, handlers, acc, before + [c] + after);
      { Inlined(grouped, handlers, acc, before, c, after); }
      Fold(grouped, handlers, acc, before + selected + after);
      { FoldFrame(objects, grouped, handlers, acc, list); }
      Fold(objects, handlers, acc, list);
    }
  }

  /** A run of a list of table objects splits the list into three parts of
      table objects. */
  lemma RunSplit(objects: Objects, list: seq<Ref>, selected: seq<Ref>, i: nat)
    requires AllIn(list, objects)
    requires i + |selected| <= |list| && list[i..i + |selected|] == selected
    ensures list == list[..i] + selected + list[i + |selected|..]
    ensures AllIn(list[..i], objects) && AllIn(selected, objects) && AllIn(list[i + |selected|..], objects)
  {
    ThreeParts(list, i, i + |selected|);
    assert forall x :: x in list[..i] ==> x in list;
    assert forall x :: x in selected ==> x in list;
    assert forall x :: x in list[i + |selected|..] ==> x in list;
  }

  /** The table with the new composite extends the old one and holds every
      entry of the grouped list. */
  lemma InGrouped(objects: Objects, grouped: Objects, before: seq<Ref>, c: Ref, after: seq<Ref>, a: ActionObject)
    requires c !in objects && grouped == objects[c := a]
    requires AllIn(before, objects) && AllIn(after, objects)
    ensures Extends(grouped, objects)
    ensures AllIn(before, grouped) && AllIn(after, grouped) && AllIn(before + [c] + after, grouped)
  {
  }

  /** Ungrouping an active composite that sits in the list leaves the fold's
      result as it was. */
  lemma UngroupKeepsResult<A>(objects: Objects, handlers: seq<Handler<A>>, acc: A, list: seq<Ref>, c: Ref)
    requires WellFormed(objects) && AllIn(list, objects)
    requires c in list && objects[c].kind == TypeComposite && objects[c].active
    requires CompositeResolves(handlers)
    ensures AllIn(Ungrouped(list, c, objects[c].items), objects)
    ensures Fold(objects, handlers, acc, Ungrouped(list, c, objects[c].items)) == Fold(objects, handlers, acc, list)
  {
    var i := FindIndex(list, c);
    var items := objects[c].items;
    var before, after := list[..i], list[i + 1..];
    CutAt(objects, list, i);
    assert AllIn(items, objects);
    calc {
      Fold(objects, handlers, acc, Ungrouped(list, c, items));
      Fold(objects, handlers, acc, before + items + after);
      { Inlined(objects, handlers, acc, before, c, after); }
      Fold(objects, handlers, acc, before + [c] + after);
      Fold(objects, handlers, acc, list);
    }
  }

  /** Cutting a list of table objects around one position gives two lists of
      table objects. */
  lemma CutAt(objects: Objects, list: seq<Ref>, i: nat)
    requires AllIn(list, objects) && i < |list|
    ensures list == list[..i] + [list[i]] + list[i + 1..]
    ensures AllIn(list[..i], objects) && AllIn(list[i + 1..], objects)
  {
    assert forall x :: x in list[..i] ==> x in list;
    assert forall x :: x in list[i + 1..] ==> x in list;
  }

}
