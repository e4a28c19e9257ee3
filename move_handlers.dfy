/** The four move handlers: each works on a copy of the dataset, shifts one
    coordinate of every point feature by the payload's distance, and records a
    description outcome under the action's id. */
module MoveHandlers {
  import opened JsArray
  import opened Geo
  import opened Actions
  import opened Outcomes

  datatype Direction = North | South | East | West

  /** The action kind each handler is registered under. */
  function KindOf(dir: Direction): string
  {
    match dir
    case North => "move-north"
    case South => "move-south"
    case East => "move-east"
    case West => "move-west"
  }

  /** The word the description uses. */
  function Word(dir: Direction): string
  {
    match dir
    case North => "north"
    case South => "south"
    case East => "east"
    case West => "west"
  }

  /** The coordinate a direction moves: latitude (index 1) for north and
      south, longitude (index 0) for east and west. */
  function Axis(dir: Direction): nat
  {
    if dir == North || dir == South then 1 else 0
  }

  /** Whether the distance is added (north, east) or subtracted. */
  function Sign(dir: Direction): real
  {
    if dir == North || dir == East then 1.0 else -1.0
  }

  function Opposite(dir: Direction): Direction
  {
    match dir
    case North => South
    case South => North
    case East => West
    case West => East
  }

  /** `payload.distance`; a payload without a distance moves by 0. */
  function Distance(payload: Payload): real
  {
    if payload.MovePayload? then payload.distance else 0.0
  }

  /** One feature after the move: a point has one coordinate shifted, every
      other geometry is left as it is. */
  function ShiftFeature(f: Feature, dir: Direction, d: real): (r: Feature)
    ensures r.properties == f.properties
    ensures r.geometry.Point? <==> f.geometry.Point?
    ensures !f.geometry.Point? ==> r == f
    ensures f.geometry.Point? ==>
      var c, c' := f.geometry.coordinates, r.geometry.coordinates;
      && |c'| == |c|
      && c'[Axis(dir)] == c[Axis(dir)] + Sign(dir) * d
      && forall i :: 0 <= i < |c| && i != Axis(dir) ==> c'[i] == c[i]
  {
    match f.geometry
    case Point(c) => f.(geometry := Point(c[Axis(dir) := c[Axis(dir)] + Sign(dir) * d]))
    case _ => f
  }

  /** A point moves by updating the one coordinate in place. */
  lemma ShiftPoint(f: Feature, dir: Direction, d: real)
    requires f.geometry.Point?
    ensures var c := f.geometry.coordinates;
      ShiftFeature(f, dir, d) == f.(geometry := Point(c[Axis(dir) := c[Axis(dir)] + Sign(dir) * d]))
  {
  }

  /** Every feature shifted, in the same order. */
  function ShiftAll(fs: seq<Feature>, dir: Direction, d: real): (r: seq<Feature>)
    ensures |r| == |fs|
    ensures forall i :: 0 <= i < |fs| ==> r[i] == ShiftFeature(fs[i], dir, d)
  {
    seq(|fs|, i requires 0 <= i < |fs| => ShiftFeature(fs[i], dir, d))
  }

  /** The accumulator a move handler returns: the shifted copy of the dataset
      and the outcome map with exactly one entry written, under the action's
      id. */
  function Moved(acc: Acc, dir: Direction, action: ActionObject): (r: Acc)
    ensures r.state.name == acc.state.name
    ensures r.state.features == ShiftAll(acc.state.features, dir, Distance(action.payload))
    ensures action.id in r.outcomes
    ensures r.outcomes[action.id] == MoveDescription(Word(dir), Distance(action.payload))
    ensures forall k :: k != action.id ==> (k in r.outcomes <==> k in acc.outcomes)
    ensures forall k :: k != action.id && k in acc.outcomes ==> r.outcomes[k] == acc.outcomes[k]
  {
    var d := Distance(action.payload);
    Acc(acc.state.(features := ShiftAll(acc.state.features, dir, d)),
        acc.outcomes[action.id := MoveDescription(Word(dir), d)])
  }

  /** The handler as the source runs it: copy the features into a fresh
      array, walk it shifting every point in place, then write the outcome.
      Nothing outside the fresh copy is modified. */
  method HandleMove(dir: Direction, acc: Acc, action: ActionObject) returns (r: Acc)
    ensures r == Moved(acc, dir, action)
  {
    var fs := acc.state.features;
    var copy := new Feature[|fs|](i requires 0 <= i < |fs| => fs[i]);
    var d := Distance(action.payload);
    var axis := Axis(dir);
    for i := 0 to copy.Length
      invariant forall j :: 0 <= j < i ==> copy[j] == ShiftFeature(fs[j], dir, d)
      invariant forall j :: i <= j < copy.Length ==> copy[j] == fs[j]
    {
      var feature := copy[i];
      if feature.geometry.Point? {
        var c := feature.geometry.coordinates;
        copy[i] := feature.(geometry := Point(c[axis := c[axis] + Sign(dir) * d]));
        ShiftPoint(feature, dir, d);
      }
    }
    var outcomes := acc.outcomes[action.id := MoveDescription(Word(dir), d)];
    r := Acc(acc.state.(features := copy[..]), outcomes);
  }

  /** Over exact arithmetic a move followed by the opposite move of the same
      distance puts every point back, and leaves everything else as it was. */
  lemma OppositeMovesCancel(acc: Acc, dir: Direction, a: ActionObject, b: ActionObject)
    requires Distance(a.payload) == Distance(b.payload)
    ensures Moved(Moved(acc, dir, a), Opposite(dir), b).state == acc.state
  {
    var d := Distance(a.payload);
    var fs := acc.state.features;
    var back := Moved(Moved(acc, dir, a), Opposite(dir), b).state.features;
    forall i | 0 <= i < |fs| ensures back[i] == fs[i] {
      var once := ShiftFeature(fs[i], dir, d);
      if fs[i].geometry.Point? {
        var c := fs[i].geometry.coordinates;
        assert Axis(Opposite(dir)) == Axis(dir) && Sign(Opposite(dir)) == -Sign(dir);
        assert back[i].geometry.coordinates == c;
      }
    }
  }

  /** A move writes its outcome even when there is nothing to move. */
  lemma MoveOnEmptyDataset(acc: Acc, dir: Direction, action: ActionObject)
    requires |acc.state.features| == 0
    ensures Moved(acc, dir, action).state == acc.state
    ensures action.id in Moved(acc, dir, action).outcomes
  {
    assert ShiftAll(acc.state.features, dir, Distance(action.payload)) == acc.state.features;
  }
}
