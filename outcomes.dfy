/** What a fold over the action list produces besides the new dataset: one
    outcome per action id, in the shapes the handlers write. */
module Outcomes {
  import opened Geo

  /** An outcome record. The first three are the tagged shapes the store
      declares; the move handlers write an object that carries only a
      description and no tag, which `MoveDescription` records as the direction
      word and the distance that the text "Moved <direction> by <distance>"
      is made of. */
  datatype Outcome =
    | SimpleOutcome(description: string)
    | SpatialOutcome(after: FeatureCollection)
    | Array2dOutcome(data: seq<seq<Json>>)
    | MoveDescription(direction: string, distance: real)

  /** The outcome map, keyed by action id. */
  type OutcomeMap = map<string, Outcome>

  /** The accumulator threaded through the fold: the dataset so far and the
      outcomes written so far. */
  datatype Acc = Acc(state: FeatureCollection, outcomes: OutcomeMap)
}
