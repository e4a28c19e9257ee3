/** The property-plot handler: turns every feature into a `[time, value]`
    row and stores the rows as a two-dimensional outcome under the action's
    id, leaving the dataset itself alone. */
module ElevationPlot {
  import opened JsArray
  import opened Geo
  import opened Actions
  import opened Outcomes

  /** The action kind the handler is registered under. */
  const PropertyPlot: string := "property-plot"

  /** `payload.field`. A payload without a field reads `undefined`, which as a
      property key is the text "undefined". */
  function Field(payload: Payload): string
  {
    if payload.PlotPayload? then payload.field else "undefined"
  }

  /** The row for one feature: its time and the plotted property, missing
      keys reading as undefined; a feature without properties gives [0, 0]. */
  function Row(f: Feature, field: string): (row: seq<Json>)
    ensures |row| == 2
    ensures f.properties.None? ==> row == [Num(0.0), Num(0.0)]
    ensures f.properties.Some? && "time" in f.properties.value ==> row[0] == f.properties.value["time"]
    ensures f.properties.Some? && "time" !in f.properties.value ==> row[0] == Undefined
    ensures f.properties.Some? && field in f.properties.value ==> row[1] == f.properties.value[field]
    ensures f.properties.Some? && field !in f.properties.value ==> row[1] == Undefined
  {
    match f.properties
    case None => [Num(0.0), Num(0.0)]
    case Some(p) => [Get(p, "time"), Get(p, field)]
  }

  /** `features.map(...)`: one row per feature, in feature order. */
  function Rows(fs: seq<Feature>, field: string): (rows: seq<seq<Json>>)
    ensures |rows| == |fs|
    ensures forall i :: 0 <= i < |fs| ==> rows[i] == Row(fs[i], field)
  {
    seq(|fs|, i requires 0 <= i < |fs| => Row(fs[i], field))
  }

  /** The accumulator the handler returns. */
  function Plotted(acc: Acc, action: ActionObject): (r: Acc)
    ensures r.state == acc.state
    ensures |acc.state.features| == 0 ==> r == acc
    ensures |acc.state.features| > 0 ==>
      && action.id in r.outcomes
      && r.outcomes[action.id] == Array2dOutcome(Rows(acc.state.features, Field(action.payload)))
    ensures forall k :: k != action.id ==> (k in r.outcomes <==> k in acc.outcomes)
    ensures forall k :: k != action.id && k in acc.outcomes ==> r.outcomes[k] == acc.outcomes[k]
  {
    if |acc.state.features| > 0 then
      var rows := Rows(acc.state.features, Field(action.payload));
      Acc(acc.state, acc.outcomes[action.id := Array2dOutcome(rows)])
    else acc
  }
}
