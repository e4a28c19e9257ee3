/** The list operations that `Pipeline` (src/Pipeline.ts) and the older combined
    `Store` (src/Store.ts) perform identically: removal by reference, grouping a
    selection into a composite and ungrouping it again. Each function gives the
    list (or object table) the operation leaves behind, following the source's
    `filter`, `find`, `findIndex` and `splice` calls one by one. */
module ActionList {
  import opened JsArray
  import opened Actions

  /** The object q is a composite whose items include r. */
  predicate Holds(objects: Objects, q: Ref, r: Ref)
    requires q in objects
  {
    objects[q].kind == TypeComposite && r in objects[q].items
  }

  /** `actions.filter(a => a.type === 'composite').find(c => c.items.includes(r))`:
      the first composite of the list, in list order, that holds r. */
  function ParentOf(objects: Objects, list: seq<Ref>, r: Ref): (p: Option<Ref>)
    requires AllIn(list, objects)
    ensures p.Some? ==> p.value in list && Holds(objects, p.value, r)
  {
    if |list| == 0 then None
    else if Holds(objects, list[0], r) then
      assert list[0] in list;
      Some(list[0])
    else
      var p := ParentOf(objects, list[1..], r);
      assert forall q :: q in list[1..] ==> q in list;
      p
  }

  /** The search finds the first holder in list order, and finds none exactly
      when no composite of the list holds the action. */
  lemma ParentOfFirst(objects: Objects, list: seq<Ref>, r: Ref)
    requires AllIn(list, objects)
    ensures ParentOf(objects, list, r).None? <==> forall q :: q in list ==> !Holds(objects, q, r)
    ensures var p := ParentOf(objects, list, r);
      p.Some? ==> exists i :: 0 <= i < |list| && list[i] == p.value && Holds(objects, p.value, r)
                              && forall j :: 0 <= j < i ==> !Holds(objects, list[j], r)
  {
    ParentOfNone(objects, list, r);
    var p := ParentOf(objects, list, r);
    if p.Some? {
      var i := ParentOfIndex(objects, list, r);
    }
  }

  /** No holder found exactly when none of the list holds the action. */
  lemma {:induction false} ParentOfNone(objects: Objects, list: seq<Ref>, r: Ref)
    requires AllIn(list, objects)
    ensures ParentOf(objects, list, r).None? <==> forall q :: q in list ==> !Holds(objects, q, r)
  {
    if |list| > 0 && !Holds(objects, list[0], r) {
      assert forall q :: q in list[1..] ==> q in list;
      ParentOfNone(objects, list[1..], r);
      assert forall q :: q in list ==> q == list[0] || q in list[1..];
    } else if |list| > 0 {
      assert list[0] in list;
    }
  }

  /** A holder that is found sits at an index with no holder before it. */
  lemma {:induction false} ParentOfIndex(objects: Objects, list: seq<Ref>, r: Ref) returns (i: nat)
    requires AllIn(list, objects) && ParentOf(objects, list, r).Some?
    ensures i < |list| && list[i] == ParentOf(objects, list, r).value
    ensures forall j :: 0 <= j < i ==> !Holds(objects, list[j], r)
  {
    if Holds(objects, list[0], r) {
      i := 0;
    } else {
      assert forall q :: q in list[1..] ==> q in list;
      var k := ParentOfIndex(objects, list[1..], r);
      i := k + 1;
      assert forall j :: 0 < j <= k ==> list[j] == list[1..][j - 1];
    }
  }

  /** The composite `groupActions` creates: kind "composite", the given name
      as its label, version "1.0", active, holding the selection in the order
      given. */
  function NewComposite(id: string, name: string, selected: seq<Ref>): (a: ActionObject)
    ensures a.kind == TypeComposite && a.active && a.items == selected && a.title == name
  {
    ActionObject(id, TypeComposite, name, "1.0", true, NoPayload, selected)
  }

  /** The object table after `removeAction(r)` (src/Pipeline.ts:50-65): untouched
      when r is at the top level; otherwise the first composite holding r loses
      every occurrence of r from its items. */
  function RemovedObjects(objects: Objects, list: seq<Ref>, r: Ref): (result: Objects)
    requires AllIn(list, objects)
    ensures result.Keys == objects.Keys
    ensures forall q :: q in objects ==> result[q] == objects[q].(items := result[q].items)
  {
    if r in list then objects
    else
      match ParentOf(objects, list, r)
      case None => objects
      case Some(p) => objects[p := objects[p].(items := Without(objects[p].items, r))]
  }

  /** What removal does to the table: nothing when r is at the top level or in
      no composite; otherwise the first composite holding r loses every
      occurrence of r, keeps its other items with their multiplicity, and no
      other object changes. */
  lemma RemovedObjectsEffect(objects: Objects, list: seq<Ref>, r: Ref)
    requires AllIn(list, objects)
    ensures r in list ==> RemovedObjects(objects, list, r) == objects
    ensures (forall q :: q in list ==> !Holds(objects, q, r)) ==> RemovedObjects(objects, list, r) == objects
    ensures r !in list && ParentOf(objects, list, r).Some? ==>
      var p, result := ParentOf(objects, list, r).value, RemovedObjects(objects, list, r);
      && r !in result[p].items
      && (forall x :: x != r ==> multiset(result[p].items)[x] == multiset(objects[p].items)[x])
      && (forall q :: q in objects && q != p ==> result[q] == objects[q])
  {
    ParentOfFirst(objects, list, r);
  }

  /** Removal keeps the table well formed: a composite only loses items. */
  lemma RemovedWellFormed(objects: Objects, list: seq<Ref>, r: Ref)
    requires WellFormed(objects) && AllIn(list, objects)
    ensures WellFormed(RemovedObjects(objects, list, r))
  {
    if r !in list && ParentOf(objects, list, r).Some? {
      var p := ParentOf(objects, list, r).value;
      var result := RemovedObjects(objects, list, r);
      assert result == objects[p := objects[p].(items := Without(objects[p].items, r))];
      forall q, x | q in result && x in result[q].items ensures x in result && x < q {
        if q == p {
          assert x in objects[p].items;
        } else {
          assert x in objects[q].items;
        }
      }
    }
  }

  /** The top-level list after `ungroupAction(r)` on a composite whose items are
      `items` (src/Pipeline.ts:76-80): `findIndex`, then `splice(index, 1)`, then
      `splice(index, 0, ...items)`. When r is not at the top level `findIndex`
      gives -1 and both splices act at the end of the list. */
  function Ungrouped(list: seq<Ref>, r: Ref, items: seq<Ref>): (result: seq<Ref>)
    ensures forall x :: x in result ==> x in list || x in items
    ensures r in list ==>
      var i := FindIndex(list, r);
      result == list[..i] + items + list[i + 1..]
    ensures r !in list && |list| >= 2 ==>
      result == list[..|list| - 2] + items + [list[|list| - 2]]
    ensures r !in list && |list| < 2 ==> result == items
  {
    var index := FindIndex(list, r);
    SpliceFromEnd(list, items);
    if index == -1 then Splice(Splice(list, index, 1, []), index, 0, items)
    else
      SpliceReplace(list, index, items);
      Splice(Splice(list, index, 1, []), index, 0, items)
  }

  /** Removing position i and inserting there replaces the entry at i. */
  lemma SpliceReplace(list: seq<Ref>, i: nat, items: seq<Ref>)
    requires i < |list|
    ensures Splice(Splice(list, i, 1, []), i, 0, items) == list[..i] + items + list[i + 1..]
  {
    var removed := Splice(list, i, 1, []);
    assert removed == list[..i] + list[i + 1..];
    SpliceInsert(removed, i, items);
    SplitAt(list[..i], list[i + 1..]);
  }

  /** Both splices at -1: the last entry goes, and the items go before the
      entry that is now last. */
  lemma SpliceFromEnd(list: seq<Ref>, items: seq<Ref>)
    ensures |list| >= 2 ==>
      Splice(Splice(list, -1, 1, []), -1, 0, items) == list[..|list| - 2] + items + [list[|list| - 2]]
    ensures |list| < 2 ==> Splice(Splice(list, -1, 1, []), -1, 0, items) == items
  {
    var n := |list|;
    var removed := Splice(list, -1, 1, []);
    if n == 0 {
      assert removed == [];
      assert Splice(removed, -1, 0, items) == [] + items + [];
    } else {
      assert SpliceStart(n, -1) == n - 1;
      assert removed == list[..n - 1] + [] + list[n..];
      assert removed == list[..n - 1];
      if n == 1 {
        assert Splice(removed, -1, 0, items) == [] + items + [];
      } else {
        assert SpliceStart(n - 1, -1) == n - 2;
        assert Splice(removed, -1, 0, items) == removed[..n - 2] + items + removed[n - 2..];
        assert removed[..n - 2] == list[..n - 2];
        assert removed[n - 2..] == [list[n - 2]];
      }
    }
  }

  /** `findIndex(a => a === selected[0])`; -1 for an empty selection, whose
      first element is `undefined`. */
  function FirstIndex(list: seq<Ref>, selected: seq<Ref>): (i: int)
    ensures -1 <= i < |list|
    ensures i == -1 <==> |selected| == 0 || selected[0] !in list
  {
    if |selected| == 0 then -1 else FindIndex(list, selected[0])
  }

  /** The top-level list after `groupActions(selected, name)` created the
      composite c (src/Pipeline.ts:96-102): c is spliced in before the first
      selected item, then every selected item is filtered out. */
  function Grouped(list: seq<Ref>, selected: seq<Ref>, c: Ref): (r: seq<Ref>)
    ensures forall x :: x in r ==> (x in list || x == c) && x !in selected
  {
    WithoutAllMembers(Splice(list, FirstIndex(list, selected), 0, [c]), selected);
    WithoutAll(Splice(list, FirstIndex(list, selected), 0, [c]), selected)
  }

  /** After grouping, the list refers only to objects of the table that
      also holds the new composite. */
  lemma GroupedAllIn(objects: Objects, list: seq<Ref>, selected: seq<Ref>, c: Ref, a: ActionObject)
    requires AllIn(list, objects)
    ensures AllIn(Grouped(list, selected, c), objects[c := a])
  {
    GroupedMembers(list, selected, c);
  }

  /** Grouping keeps exactly the unselected entries of the list, plus the
      composite unless it was itself selected: every selected item is gone from
      the top level. */
  lemma GroupedMembers(list: seq<Ref>, selected: seq<Ref>, c: Ref)
    ensures forall x :: x in Grouped(list, selected, c) <==> (x in list || x == c) && x !in selected
  {
    var k := SpliceStart(|list|, FirstIndex(list, selected));
    var spliced := Splice(list, FirstIndex(list, selected), 0, [c]);
    assert spliced == list[..k] + [c] + list[k..];
    assert list == list[..k] + list[k..];
    WithoutAllMembers(spliced, selected);
    forall x ensures x in spliced <==> x in list || x == c {
      calc {
        x in spliced;
        x in list[..k] || x == c || x in list[k..];
        x in list || x == c;
      }
    }
  }

  /** When the first selected item is at the top level, at index i, the
      composite takes its place: everything before i that was not selected,
      then the composite, then everything from i on that was not selected. */
  lemma {:induction false} GroupedPlacement(list: seq<Ref>, selected: seq<Ref>, c: Ref)
    requires |selected| > 0 && selected[0] in list && c !in selected
    ensures var i := FindIndex(list, selected[0]);
      Grouped(list, selected, c) == WithoutAll(list[..i], selected) + [c] + WithoutAll(list[i..], selected)
  {
    var i := FindIndex(list, selected[0]);
    assert FirstIndex(list, selected) == i;
    assert Splice(list, i, 0, [c]) == (list[..i] + [c]) + list[i..];
    WithoutAllConcat(list[..i] + [c], list[i..], selected);
    WithoutAllConcat(list[..i], [c], selected);
    assert WithoutAll([c], selected) == [c] by {
      assert [c][1..] == [];
    }
  }

  /** A selection that is a run of a duplicate-free list, in list order, is
      replaced by the composite at the run's position. */
  lemma {:induction false} GroupedRun(list: seq<Ref>, selected: seq<Ref>, c: Ref, i: nat)
    requires Distinct(list) && c !in list
    requires |selected| > 0 && i + |selected| <= |list| && list[i..i + |selected|] == selected
    ensures Grouped(list, selected, c) == list[..i] + [c] + list[i + |selected|..]
  {
    var k := |selected|;
    BeforeRun(list, selected, i);
    AfterRun(list, selected, i);
    RunFacts(list, selected, c, i);
    ThreeParts(list, i, i + k);
    GroupedAround(list[..i], selected, list[i + k..], c);
  }

  /** The stretch before a run holds none of it. */
  lemma BeforeRun(list: seq<Ref>, selected: seq<Ref>, i: nat)
    requires Distinct(list) && i + |selected| <= |list| && list[i..i + |selected|] == selected
    ensures WithoutAll(list[..i], selected) == list[..i]
  {
    var k := |selected|;
    forall y | y in list[..i] ensures y !in selected {
      var j :| 0 <= j < i && list[..i][j] == y;
      forall b | 0 <= b < k ensures selected[b] != y {
        assert selected[b] == list[i + b];
      }
    }
    WithoutAllNone(list[..i], selected);
  }

  /** The stretch after a run holds none of it. */
  lemma AfterRun(list: seq<Ref>, selected: seq<Ref>, i: nat)
    requires Distinct(list) && i + |selected| <= |list| && list[i..i + |selected|] == selected
    ensures WithoutAll(list[i + |selected|..], selected) == list[i + |selected|..]
  {
    var k := |selected|;
    forall y | y in list[i + k..] ensures y !in selected {
      var j :| 0 <= j < |list| - (i + k) && list[i + k..][j] == y;
      assert list[i + k + j] == y;
      forall b | 0 <= b < k ensures selected[b] != y {
        assert selected[b] == list[i + b];
      }
    }
    WithoutAllNone(list[i + k..], selected);
  }

  /** The core of the previous lemma, without reference to duplicates: a
      selection sitting between two stretches that hold none of it. */
  lemma GroupedAround(before: seq<Ref>, selected: seq<Ref>, after: seq<Ref>, c: Ref)
    requires |selected| > 0 && selected[0] !in before && c !in selected
    requires WithoutAll(before, selected) == before && WithoutAll(after, selected) == after
    ensures Grouped(before + selected + after, selected, c) == before + [c] + after
  {
    FirstIndexAround(before, selected, after);
    SpliceAround(before, selected, after, c);
    FilterAround(before, selected, after, c);
  }

  /** Inserting the composite where the selection starts. */
  lemma SpliceAround(before: seq<Ref>, selected: seq<Ref>, after: seq<Ref>, c: Ref)
    ensures Splice(before + selected + after, |before|, 0, [c]) == before + [c] + selected + after
  {
    var rest := selected + after;
    assert before + selected + after == before + rest;
    SpliceInsert(before + rest, |before|, [c]);
    SplitAt(before, rest);
    assert before + [c] + rest == before + [c] + selected + after;
  }

  /** The first selected item is found just after a stretch that lacks it. */
  lemma FirstIndexAround(before: seq<Ref>, selected: seq<Ref>, after: seq<Ref>)
    requires |selected| > 0 && selected[0] !in before
    ensures FirstIndex(before + selected + after, selected) == |before|
  {
    var list := before + selected + after;
    var i := |before|;
    assert list[i] == selected[0];
    forall k | 0 <= k < i ensures list[k] != selected[0] {
      assert list[k] == before[k];
    }
    FindIndexAt(list, selected[0], i);
  }

  /** Filtering the selection out of the spliced list leaves the composite
      between the two untouched stretches. */
  lemma FilterAround(before: seq<Ref>, selected: seq<Ref>, after: seq<Ref>, c: Ref)
    requires c !in selected
    requires WithoutAll(before, selected) == before && WithoutAll(after, selected) == after
    ensures WithoutAll(before + [c] + selected + after, selected) == before + [c] + after
  {
    FilterKeepsOne(c, selected);
    FilterKeeps(before, [c], selected);
    WithoutAllEvery(selected, selected);
    FilterDrops(before + [c], selected, selected);
    FilterKeepsTail(before + [c] + selected, after, selected);
  }

  /** A single entry outside the filter survives it. */
  lemma FilterKeepsOne(c: Ref, xs: seq<Ref>)
    requires c !in xs
    ensures WithoutAll([c], xs) == [c]
  {
    assert [c][1..] == [];
  }

  /** Two stretches the filter leaves alone are left alone together. */
  lemma FilterKeeps(a: seq<Ref>, b: seq<Ref>, xs: seq<Ref>)
    requires WithoutAll(a, xs) == a && WithoutAll(b, xs) == b
    ensures WithoutAll(a + b, xs) == a + b
  {
    WithoutAllConcat(a, b, xs);
  }

  /** A stretch the filter removes entirely vanishes from behind a kept one. */
  lemma FilterDrops(a: seq<Ref>, b: seq<Ref>, xs: seq<Ref>)
    requires WithoutAll(a, xs) == a && WithoutAll(b, xs) == []
    ensures WithoutAll(a + b, xs) == a
  {
    WithoutAllConcat(a, b, xs);
    assert a + [] == a;
  }

  /** A kept tail stays after whatever the filter makes of the front. */
  lemma FilterKeepsTail(a: seq<Ref>, b: seq<Ref>, xs: seq<Ref>)
    requires WithoutAll(b, xs) == b
    ensures WithoutAll(a + b, xs) == WithoutAll(a, xs) + b
  {
    WithoutAllConcat(a, b, xs);
  }

  /** The facts about a run that grouping relies on: the run's first item is
      found exactly at the run's start, and the fresh composite is not in it. */
  lemma RunFacts(list: seq<Ref>, selected: seq<Ref>, c: Ref, i: nat)
    requires Distinct(list) && c !in list
    requires |selected| > 0 && i + |selected| <= |list| && list[i..i + |selected|] == selected
    ensures selected[0] in list && FindIndex(list, selected[0]) == i && c !in selected
  {
    assert list[i] == selected[0];
    var j := FindIndex(list, selected[0]);
    assert list[j] == list[i];
    forall b | 0 <= b < |selected| ensures selected[b] != c {
      assert selected[b] == list[i + b];
    }
  }

  /** Ungrouping the composite that grouping just made gives back the original
      list, in order. */
  lemma {:induction false} UngroupAfterGroup(list: seq<Ref>, selected: seq<Ref>, c: Ref, i: nat)
    requires Distinct(list) && c !in list
    requires |selected| > 0 && i + |selected| <= |list| && list[i..i + |selected|] == selected
    ensures Ungrouped(Grouped(list, selected, c), c, selected) == list
  {
    GroupedRun(list, selected, c, i);
    var grouped := list[..i] + [c] + list[i + |selected|..];
    assert grouped[i] == c;
    assert FindIndex(grouped, c) == i by {
      assert c !in list[..i];
      assert grouped[..i] == list[..i];
    }
    assert grouped[..i] == list[..i];
    assert grouped[i + 1..] == list[i + |selected|..];
    ThreeParts(list, i, i + |selected|);
  }
}
