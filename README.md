# rap-lines action pipeline, modelled in Dafny

rap-lines lets a user build an ordered list of actions: move the track north,
south, east or west, plot a property, group actions into a composite, and so
on. The list is replayed against an initial GeoJSON-like feature collection to
give the current dataset and one outcome per action. This project models the
core of that engine:

- **Pipeline** (`src/Pipeline.ts`, module `PipelineEngine`): the action list,
  the id counter, and the edits add, remove, group, ungroup and toggle. Actions
  are mutable JavaScript objects compared by reference. They live in an object
  table (`Actions.Objects`), and the list holds references. An edit in place,
  such as `parent.items = ...` or `action.active = !action.active`, is an
  update of the table.
- **List algebra** (`ActionList`, `JsArray`): the `filter`, `find`,
  `findIndex` and `splice` calls the edits are made of. This includes the
  ECMAScript rule that a `splice` start of -1 counts from the end.
- **Reducer** (`Reducer`, `Regrouping`): the left fold every store runs. It
  skips inactive actions and actions with no handler. The built-in composite
  handler folds a composite's items, so composites may nest. The fold is
  generic in its accumulator: `{state, outcomes}` for `src/classes/Store.ts`,
  and the bare dataset for `src/Store.ts` and `src/state.ts`.
- **Stores**:
  - `OutcomeStore`: `src/classes/Store.ts`.
  - `LegacyStore`: `src/Store.ts`, which has its own list and clock ids.
  - `FlatStore`: `src/state.ts`, a flat list with `modifyAction`.
  Each store is a class whose methods say exactly what they change.
- **Handlers**:
  - `MoveHandlers`: `src/actions/move-north.ts`. The handler is an imperative
    method over a copied array, proved equal to a specification function.
  - `ElevationPlot`: `src/actions/plot-elevation.ts`.
- **Viewer helpers** (`PipelineViewer`, `IndexSort`): the selection logic of
  `src/components/PipelineViewer.tsx` that decides when grouping is offered
  and what it requests.

Where the written design and the code disagree, the model follows the code:

- **Nested composites.** Composites may nest. The composite handler looks up
  each item's handler, "composite" included, so nested composites are folded
  recursively. Termination rests on each composite being newer than its items.
- **Removal.** Removal takes out every occurrence of the reference, because it
  uses `filter`, not only one occurrence.
- **Ids.** Only the pipeline's ids come from a counter. `src/Store.ts` uses
  the clock reading and `src/state.ts` uses the clock reading modulo 1000000,
  so ids there may repeat.
- **Moves on an empty dataset.** A move still writes its outcome when the
  dataset has no features (`MoveHandlers.MoveOnEmptyDataset`).
- **Ungrouping a composite that is not at the top level.** `findIndex` gives
  -1, and both splices act at the end of the list instead of doing nothing
  (`ActionList.Ungrouped`).

## Model

| member | source | states |
|---|---|---|
| PipelineEngine.Pipeline.constructor | src/Pipeline.ts:31-36 | empty list, no listeners, counter at 0 |
| PipelineEngine.Pipeline.AddAction | src/Pipeline.ts:38-44 | a copy is appended under the next counter value, with that value's decimal text as its id; that id differs from every earlier id; the table stays well formed; every listener gets the new list |
| PipelineEngine.IssueNext | src/Pipeline.ts:41-42 | storing under the next counter value keeps every object's id equal to the text of the counter value that made it |
| PipelineEngine.Pipeline.IdsDistinct | src/Pipeline.ts:38-44 | no two objects a pipeline has made share an id |
| PipelineEngine.Pipeline.NextIdFresh | src/Pipeline.ts:86-88 | the id the counter issues next belongs to no existing object |
| JsText.NatToDecimalInjective | src/Pipeline.ts:41 | different counter values never give the same id text |
| JsText.NatToDecimal | src/Pipeline.ts:41 | `'' + n`: the text is non-empty and only 0 starts with the digit 0 |
| PipelineEngine.Pipeline.AddActionsListener | src/Pipeline.ts:46-48 | the listener is appended; nothing else changes |
| PipelineEngine.Pipeline.RemoveAction | src/Pipeline.ts:50-65 | the list loses every occurrence of the action; if it was not at the top level, the first composite holding it loses it; ids are kept and the table stays well formed; listeners are told |
| PipelineEngine.RemovedStaysIssued | src/Pipeline.ts:56-60 | removal keeps the table well formed and keeps every id |
| ActionList.ParentOfFirst | src/Pipeline.ts:56-57 | gives the first composite of the list, in list order, that holds the action, or none exactly when no composite of the list holds it |
| ActionList.ParentOf | src/Pipeline.ts:56-57 | a composite it returns is on the top-level list and holds the action |
| ActionList.RemovedObjects | src/Pipeline.ts:52-60 | removal changes only the items of objects, never their other fields or the set of objects |
| ActionList.RemovedObjectsEffect | src/Pipeline.ts:52-60 | top-level action or no holder: table unchanged; otherwise the parent loses every occurrence, keeps its other items with their counts, and no other object changes |
| ActionList.RemovedWellFormed | src/Pipeline.ts:56-60 | removal keeps every composite's items inside the table and older than the composite |
| JsArray.Without | src/Pipeline.ts:53 | `filter(a => a !== x)`: x is gone, every other element keeps its count, and a list without x is unchanged |
| JsArray.WithoutConcat | src/Pipeline.ts:63 | the filter keeps list order: it distributes over concatenation |
| PipelineEngine.Pipeline.UngroupAction | src/Pipeline.ts:67-84 | a non-composite is refused with no change and no notification; a composite is replaced by its items where it stood; the table and counter do not change |
| ActionList.Ungrouped | src/Pipeline.ts:76-80 | a composite at the top level is replaced by its items at its position; one that is not at the top level (index -1) removes the last entry and inserts the items before the old second-to-last entry |
| JsArray.FindIndex | src/Pipeline.ts:76 | `findIndex`: the first index holding x, or -1 exactly when x is absent |
| JsArray.FindIndexAt | src/Pipeline.ts:76 | the first occurrence found is the one with no earlier copy |
| JsArray.SpliceStart | src/Pipeline.ts:78 | an in-range start is used as given; any start ends up within the list |
| JsArray.Splice | src/Pipeline.ts:78-80 | `splice` introduces no element that was neither in the list nor among the inserted items |
| JsArray.SpliceInsert | src/Pipeline.ts:80 | a splice that deletes nothing inserts the items at the start position |
| PipelineEngine.Pipeline.GroupActions | src/Pipeline.ts:86-106 | a new composite with the next id and the selection as its items, version "1.0", active, goes before the first selected action; the selected actions leave the top level; listeners are told |
| ActionList.NewComposite | src/Pipeline.ts:87-94 | the composite has kind "composite", the given name, is active, and holds the selection in the order given |
| ActionList.FirstIndex | src/Pipeline.ts:96 | -1 exactly for an empty selection or one whose first item is not at the top level |
| ActionList.GroupedMembers | src/Pipeline.ts:96-102 | after grouping, the top level holds exactly the unselected entries and the composite, unless the composite itself was selected |
| ActionList.Grouped | src/Pipeline.ts:96-102 | the top level after grouping holds no selected action, and nothing but earlier entries and the new composite |
| ActionList.GroupedPlacement | src/Pipeline.ts:96-102 | the composite takes the first selected action's place among the unselected entries |
| ActionList.GroupedRun | src/Pipeline.ts:96-102 | a contiguous run of a duplicate-free list is replaced by the composite at the run's position |
| ActionList.UngroupAfterGroup | src/Pipeline.ts:67-106 | ungrouping the composite that grouping made restores the original list, in order |
| JsArray.WithoutAllMembers | src/Pipeline.ts:102 | `filter(a => !selected.includes(a))` keeps exactly the entries that are not selected |
| JsArray.WithoutAllConcat | src/Pipeline.ts:102 | that filter keeps list order: it distributes over concatenation |
| PipelineEngine.Pipeline.ToggleActionActive | src/Pipeline.ts:108-112 | only the action's active flag flips; list and ids stay; listeners are told |
| Actions.FlipTwice | src/Pipeline.ts:109 | flipping the flag twice gives the table back |
| Actions.Flip | src/Pipeline.ts:109 | the same references; the action becomes itself with only its flag negated, and every other object is unchanged |
| Actions.StoreFresh | src/Pipeline.ts:86-94 | storing a new object newer than all others, holding only existing objects, keeps the table well formed |
| Actions.BoundBelow | src/classes/Store.ts:73-89 | the items of a composite are all older than it, which bounds the recursion of the composite handler |
| Reducer.Lookup | src/classes/Store.ts:134 | `handlers.find` by kind: the first handler registered for the kind, or -1 exactly when none is |
| Reducer.LookupAfterAdd | src/classes/Store.ts:110-112 | registering a handler never shadows an earlier one for the same kind; only a kind with no handler finds the new one |
| Reducer.Step | src/classes/Store.ts:130-141 | an inactive action, or one whose kind has no handler, leaves the accumulator as it was |
| Reducer.Fold | src/classes/Store.ts:130-141 | `reduce` of the list from the accumulator, with composites folded by the composite handler; a list with no active action gives the accumulator back |
| Reducer.ActiveOnly | src/classes/Store.ts:131-133 | keeps exactly the active actions of the list |
| Reducer.FoldAppend | src/classes/Store.ts:130-141 | folding a concatenation folds the first part, then the second from where the first ended |
| Reducer.FoldActiveOnly | src/classes/Store.ts:131-133 | the fold over a list equals the fold over its active actions alone |
| Reducer.Skipped | src/classes/Store.ts:134-140 | an inactive or unhandled action can be dropped anywhere without changing the result, and the actions after it still run |
| Reducer.Inlined | src/classes/Store.ts:71-93 | an active composite acts exactly as its items would at its position, so an inactive item inside it contributes nothing |
| Reducer.FoldFrame | src/classes/Store.ts:130-141 | adding objects to the table does not change the fold of a list of existing objects |
| Reducer.StepFrame | src/classes/Store.ts:73-89 | the same for one step, composites included |
| Regrouping.GroupKeepsResult | src/Pipeline.ts:86-106 | grouping a contiguous run into a new composite leaves the folded result unchanged |
| Regrouping.UngroupKeepsResult | src/Pipeline.ts:67-84 | ungrouping an active top-level composite leaves the folded result unchanged |
| OutcomeStore.Store.constructor | src/classes/Store.ts:58-69 | no state, no outcomes, name "pending", and the composite handler as the only handler |
| OutcomeStore.Store.CompositeResolves | src/classes/Store.ts:67-68 | "composite" always resolves to the built-in handler, whatever is registered later |
| OutcomeStore.Store.AddHandler | src/classes/Store.ts:110-112 | the handler is appended; nothing is recomputed |
| OutcomeStore.Store.AddStateListener | src/classes/Store.ts:114-119 | a listener is registered at most once |
| OutcomeStore.Store.GetInitialState | src/classes/Store.ts:106-108 | returns the initial state, or none before one is set |
| OutcomeStore.NameOf | src/classes/Store.ts:101 | the data's name, or "unknown" when it is missing or empty |
| OutcomeStore.Store.SetInitialState | src/classes/Store.ts:95-104 | once data arrives it becomes the initial state, its name the store's name, and state and outcomes become the fold of the list from it with no outcomes |
| OutcomeStore.Store.ActionsListener | src/classes/Store.ts:121-123 | a new list triggers the same recomputation as `updateState` |
| OutcomeStore.Store.UpdateState | src/classes/Store.ts:125-145 | with no initial state nothing changes and no one is told; otherwise state and outcomes are the fold of the list from the initial state with empty outcomes, and every listener gets the name, state and outcomes |
| LegacyStore.Store.constructor | src/Store.ts:42-53 | current state is the initial state; the composite handler is registered first |
| LegacyStore.Store.UpdateState | src/Store.ts:169-183 | the current state is the fold of the list over the initial dataset; each state listener gets it |
| LegacyStore.Store.AddAction | src/Store.ts:79-86 | a copy with an id from the clock is appended under a fresh reference; each list listener gets the new list; the state is recomputed and each state listener gets it; listener lists and handlers stay |
| LegacyStore.Store.AddHandler | src/Store.ts:88-90 | the handler is appended; nothing is recomputed, no listener is told, and the list, table, references and listener lists stay |
| LegacyStore.Store.AddStateListener | src/Store.ts:92-94 | the listener is appended, duplicates allowed; the other listener list, the list, table and state stay, and no one is told |
| LegacyStore.Store.AddActionsListener | src/Store.ts:96-98 | the listener is appended, duplicates allowed; the other listener list, the list, table and state stay, and no one is told |
| LegacyStore.Store.RemoveAction | src/Store.ts:100-116 | removal as in the pipeline; each list listener gets the new list; the state is recomputed and each state listener gets it; listener lists and handlers stay |
| LegacyStore.Store.UngroupAction | src/Store.ts:118-137 | a non-composite changes nothing and no one is told; a composite is replaced by its items where it stood, then each list listener gets the new list; the state is recomputed and each state listener gets it; listener lists and handlers stay |
| LegacyStore.Store.GroupActions | src/Store.ts:139-162 | grouping as in the pipeline, with a clock id, under a fresh reference; each list listener gets the new list; the state is recomputed and each state listener gets it; listener lists and handlers stay |
| LegacyStore.Store.ToggleActionActive | src/Store.ts:164-167 | the flag flips; the state is recomputed and each state listener gets it; list listeners are not told; list and listener lists stay |
| LegacyStore.Store.GetState | src/Store.ts:185-187 | returns the current state |
| FlatStore.StampId | src/state.ts:47-48 | the id is the clock reading modulo 1000000, so it has one to six digits |
| JsText.DecimalLength | src/state.ts:48 | a number below 10^k has at most k digits |
| FlatStore.Store.constructor | src/state.ts:34-42 | current state is the initial state; no handlers, not even a composite one |
| FlatStore.Store.UpdateState | src/state.ts:87-101 | the current state is the fold of the list over the initial dataset; each state listener gets it |
| FlatStore.Store.AddAction | src/state.ts:44-52 | a copy with a stamp id of at most six digits is appended under a fresh reference; each list listener gets the new list; the state is recomputed and each state listener gets it; listener lists and handlers stay |
| FlatStore.Store.AddHandler | src/state.ts:54-56 | the handler is appended; nothing is recomputed, no listener is told, and the list, table, references and listener lists stay |
| FlatStore.Store.AddStateListener | src/state.ts:58-60 | the listener is appended; the other listener list, the list, table and state stay, and no one is told |
| FlatStore.Store.AddActionsListener | src/state.ts:62-64 | the listener is appended; the other listener list, the list, table and state stay, and no one is told |
| FlatStore.Store.ModifyAction | src/state.ts:66-71 | a whole-number index inside the list gets the new action; a fractional index inside the range leaves the list as it was; both refold the state and send it to each state listener; an index outside the range changes nothing and no one is told; list listeners are never told; listener lists stay |
| FlatStore.Store.RemoveAction | src/state.ts:73-77 | every occurrence leaves the list, the rest keep their order; each list listener gets the new list; the state is recomputed and each state listener gets it; listener lists and handlers stay |
| FlatStore.Store.ToggleActionActive | src/state.ts:79-85 | an action not in the list is ignored and no one is told; otherwise its flag flips, the state is recomputed and each state listener gets it; list listeners are never told; listener lists stay |
| FlatStore.Store.GetState | src/state.ts:103-105 | returns the current state |
| MoveHandlers.ShiftFeature | src/actions/move-north.ts:63-69 | a point has exactly the moved coordinate shifted by the signed distance; every other geometry and all properties are untouched |
| MoveHandlers.ShiftAll | src/actions/move-north.ts:63-69 | every feature is shifted, in order |
| MoveHandlers.Moved | src/actions/move-north.ts:56-78 | the features are exactly `ShiftAll` of the input by the payload distance, so each point is shifted and order is kept; the name is kept; exactly one outcome is written, under the action's id, as a description of direction and distance |
| MoveHandlers.HandleMove | src/actions/move-north.ts:56-78 | the in-place walk over the copied features computes exactly `Moved` |
| MoveHandlers.OppositeMovesCancel | src/actions/move-north.ts:79-101 | with exact arithmetic, moving north then south by the same distance (and likewise east then west) restores the dataset |
| MoveHandlers.MoveOnEmptyDataset | src/actions/move-north.ts:70-72 | with no features the dataset is unchanged but the outcome is still written |
| ElevationPlot.Row | src/actions/plot-elevation.ts:24-32 | a row is [time, value]: a present key reads its property, a missing one reads undefined, for both positions; a feature without properties gives [0, 0] |
| ElevationPlot.Rows | src/actions/plot-elevation.ts:24-32 | one row per feature, in order |
| ElevationPlot.Plotted | src/actions/plot-elevation.ts:18-47 | the dataset is untouched; with no features the accumulator is returned as it was; otherwise the outcome under the action's id is the 2-D array of `Rows`, one row per feature in feature order, and no other outcome changes |
| JsText.IntToString | src/components/PipelineViewer.tsx:141 | the text of an index starts with '-' exactly for negatives |
| IndexSort.SortBy | src/components/PipelineViewer.tsx:141 | sorting permutes the indices |
| IndexSort.TextSort | src/components/PipelineViewer.tsx:141 | `sort()` without a comparator: a permutation in which no index follows one whose text it precedes |
| IndexSort.SortByOrdered | src/components/PipelineViewer.tsx:141 | the insertion sort by any asymmetric, transitive order leaves no element after one it precedes |
| JsText.StringLess | src/components/PipelineViewer.tsx:141 | JavaScript string comparison: no string is less than itself |
| JsText.StringLessAsymmetric | src/components/PipelineViewer.tsx:141 | of two strings at most one is less than the other |
| JsText.StringLessTransitive | src/components/PipelineViewer.tsx:141 | string comparison is transitive |
| IndexSort.NumericSortAscending | src/components/PipelineViewer.tsx:141 | sorting by value gives an ascending permutation |
| IndexSort.AscendingUnique | src/components/PipelineViewer.tsx:141 | an ascending permutation is unique |
| IndexSort.StepsRange | src/components/PipelineViewer.tsx:142 | indices that step by one are a range lo, lo+1, ... |
| IndexSort.NumericSortRange | src/components/PipelineViewer.tsx:141-142 | a permuted range sorts by value into that range |
| PipelineViewer.IdIndex | src/components/PipelineViewer.tsx:140 | the first position of an action with the id, or -1 exactly when there is none |
| PipelineViewer.IdIndexUnique | src/components/PipelineViewer.tsx:140 | with unique ids, an action's id is found at that action's position |
| PipelineViewer.SelectedIndices | src/components/PipelineViewer.tsx:140 | one index per selected id, in selection order; each is -1 or the position of an action with that id |
| PipelineViewer.ItemsAt | src/components/PipelineViewer.tsx:60 | one item per index; undefined exactly for an index off the list |
| PipelineViewer.ConsecutiveAsWritten | src/components/PipelineViewer.tsx:135-144 | when it holds, two or more ids are selected and their text-sorted indices are lo, lo+1, ... in that order |
| PipelineViewer.Consecutive | src/components/PipelineViewer.tsx:135-144 | when it holds, two or more ids are selected and their value-sorted indices are lo, lo+1, ... in that order |
| PipelineViewer.ConsecutiveMeansRange | src/components/PipelineViewer.tsx:135-144 | with indices sorted by value, the check holds exactly when two or more ids are selected and their indices are lo, lo+1, ... in some order |
| PipelineViewer.AsWrittenAccepts | src/components/PipelineViewer.tsx:135-144 | whatever the text-sorted check accepts is a run, and for it the text and value sorts agree |
| PipelineViewer.TenBeforeNine | src/components/PipelineViewer.tsx:141 | `sort()` puts 10 before 9 |
| PipelineViewer.NineTenRefused | src/components/PipelineViewer.tsx:135-144 | with eleven actions, selecting the last two is a run that the written check refuses |
| PipelineViewer.StaleSelectionGroups | src/components/PipelineViewer.tsx:135-144 | an id left ticked after its action was deleted has index -1; with the kept neighbour at 0 both checks accept, both submits request [undefined, the kept action], and the on-list check refuses |
| PipelineViewer.SubmitGroupAsWritten | src/components/PipelineViewer.tsx:55-67 | cancel requests nothing and keeps the selection; a name clears the selection and requests, under that name, the actions at a reordering of the selected indices in which no index follows one whose text it precedes (`sort()` order); an index off the list gives undefined |
| PipelineViewer.SubmitGroup | src/components/PipelineViewer.tsx:55-67 | the same, with the selected indices reordered ascending by value |
| PipelineViewer.SubmitGroupInListOrder | src/components/PipelineViewer.tsx:58-64 | when every selected id is on the list and the indices form a run, the request is that stretch of the list, in list order, with no undefined item |
| PipelineViewer.SubmitGroupAgrees | src/components/PipelineViewer.tsx:55-67 | whenever the written check enables grouping, the written submit sends the same request as the intended one |
| PipelineViewer.NineTenReversed | src/components/PipelineViewer.tsx:58-60 | selecting the last two of eleven actions requests them in reverse list order |
| PipelineViewer.SetSelected | src/components/PipelineViewer.tsx:69-77 | ticking appends the id; unticking removes every occurrence and keeps the other ids with their counts |
| PipelineViewer.TickUntick | src/components/PipelineViewer.tsx:69-77 | tick then untick leaves the selection without the id, so unchanged if it was not ticked before |
| PipelineViewer.SelectAll | src/components/PipelineViewer.tsx:146-155 | a selection as large as the list is cleared; otherwise every action id is selected, in list order |
| PipelineViewer.SelectAllTwice | src/components/PipelineViewer.tsx:146-155 | on a non-empty list, two presses from a partial selection clear it, and from a full selection select everything |
| PipelineViewer.FindById | src/components/PipelineViewer.tsx:131 | `find` by id: none exactly when no action has the id, otherwise the first such action |
| PipelineViewer.GroupIsSelectedMeans | src/components/PipelineViewer.tsx:127-133 | with unique ids, ungrouping is offered exactly when one id is selected and it names a composite |
| PipelineViewer.HideMembers | src/components/PipelineViewer.tsx:197 | keeps exactly the shown outcomes with another id |
| PipelineViewer.HideAbsent | src/components/PipelineViewer.tsx:197 | hiding an id that is not shown changes nothing |
| PipelineViewer.ToggleVisibleOutcome | src/components/PipelineViewer.tsx:195-203 | the id's shown status flips and no other id's changes; a newly shown id is appended with its colour |
| PipelineViewer.ToggleTwice | src/components/PipelineViewer.tsx:195-203 | two toggles restore which outcomes are shown, and restore the list exactly when the id was hidden at first |
| PipelineViewer.ShadeSelected | src/components/PipelineViewer.tsx:167-172 | holds exactly the selected ids that have an outcome, each in its own colour; a single id gives its shaded entry, or nothing when it has no outcome |
| PipelineViewer.ShadeSelectedAppend | src/components/PipelineViewer.tsx:167-172 | shading distributes over concatenation, so the shaded list follows the selection's order |
| PipelineViewer.HideRevealSelected | src/components/PipelineViewer.tsx:157-176 | with no selection nothing changes; if the first selected id is shown, all are hidden; otherwise exactly the selected ids with outcomes are shown |
| PipelineViewer.HideRevealTwice | src/components/PipelineViewer.tsx:157-176 | a second press hides what the first revealed when the first selected id has an outcome, and reveals the same list again when it has none |

## Left out

- Listener callbacks are not called. Each class keeps a ghost record of the
  calls it would make, one per registered listener, in registration order,
  with the arguments it would pass. What a listener does, including
  re-entering the store, is not modelled.
- The `fetch` in `setInitialState` (src/classes/Store.ts:95-104) is not
  modelled. `OutcomeStore.Store.SetInitialState` takes the delivered data as a
  parameter; a failed fetch, which never sets anything, is not modelled.
- The clock (`new Date().getTime()`) in src/Store.ts and src/state.ts is a
  `timestamp` parameter.
- JavaScript numbers are modelled as exact reals. Floating-point rounding, and
  the formatting of the distance in the move description, are not modelled.
  `MoveHandlers.OppositeMovesCancel` holds only for exact arithmetic.
  Counters and clock readings are unbounded naturals, so
  `PipelineEngine.Pipeline.IdsDistinct`, `PipelineEngine.Pipeline.NextIdFresh`
  and `JsText.NatToDecimalInjective` hold for every counter value. In
  JavaScript, `++this.index` stops growing at 2^53, and from 10^21 on
  `'' + n` gives exponent notation (src/Pipeline.ts:41); neither limit is
  modelled. `FlatStore.StampId` takes a non-negative clock reading; a clock
  before 1970 reads negative, and JavaScript `%` then keeps the sign
  (src/state.ts:48).
- MoveHandlers.ShiftFeature: every feature has a geometry. GeoJSON (RFC 7946,
  section 3.2) allows `"geometry": null`, and the move handlers read
  `feature.geometry.type` (src/actions/move-north.ts:65), so they throw on
  such a feature. That failure is not modelled.
- MoveHandlers.Distance: a move handler given an action whose payload has no
  distance moves by 0. JavaScript would add `undefined` and get NaN.
- ElevationPlot.Plotted: an action with no payload at all makes the source
  throw on `payload.field`. The model has no such case: a payload without a
  field plots the property "undefined".
- The JSON round-trip copies (`JSON.parse(JSON.stringify(...))`) are identity
  on values. Their loss of `undefined` fields and non-JSON values is not
  modelled.
- Handler objects and the accumulator are values. The move handlers write
  into `acc.outcomes` in place, and the composite handler shares that
  object. Each fold starts from a fresh `{}`, so nothing observable depends
  on this sharing.
- Handlers registered from outside (`MoveHandler`, `PlotHandler`, any other)
  are pure functions in `Reducer.Atomic`. `ActionHandler` objects with their
  own state are not modelled.
- src/actions/scale-track.ts and src/actions/summarise-track.ts are not part
  of this model. They depend on geodesic and map libraries. Their actions fold
  like any other atomic kind.
- `console.log`, `console.warn`, `console.error` and `printFeature` are not
  modelled.
- The action list is a value: each edit makes a new list, and `listsSent`
  records each list as it was when sent. The source edits the very array it
  has already handed to the list listeners: `splice` in
  `PipelineEngine.Pipeline.UngroupAction`, `PipelineEngine.Pipeline.GroupActions`
  (src/Pipeline.ts:78, :80, :99), `LegacyStore.Store.UngroupAction` and
  `LegacyStore.Store.GroupActions` (src/Store.ts:129, :131, :152); `push` in
  `LegacyStore.Store.AddAction` (src/Store.ts:83) and
  `FlatStore.Store.AddAction` (src/state.ts:49); and the index assignment in
  `FlatStore.Store.ModifyAction` (src/state.ts:68). A listener that kept an
  earlier list sees it change, and a setter handed the same array twice may
  see no new value. The model does not capture this aliasing.
- FlatStore.Store.ModifyAction: the index is a real number, so a fractional
  index is modelled. `NaN` and other non-numbers are not; in the source they
  fail the range test and change nothing, as an out-of-range index does.
- FlatStore.Store.ModifyAction stores the new action under a fresh reference.
  Passing an object that is already in the list, which would alias two
  positions, is not modelled.
- PipelineEngine.Pipeline.AddAction, PipelineEngine.Pipeline.GroupActions,
  LegacyStore.Store.AddAction, LegacyStore.Store.GroupActions and
  FlatStore.Store.AddAction return the new object's reference, which the
  source does not. The model needs it to name the object.
- PipelineEngine.Pipeline.GroupActions, LegacyStore.Store.GroupActions: every
  selected item must be an object the class made. The viewer can send
  `undefined` as an item when an id stays ticked after its action was deleted
  (see Findings and `PipelineViewer.StaleSelectionGroups`). The source then
  finds index -1 for it, splices the composite in before the last entry, and
  keeps `undefined` among the composite's items; the next refold throws when
  it reads `active` of that item (src/classes/Store.ts:77). Neither the
  undefined entry nor the throw is modelled.
- PipelineEngine.Pipeline.AddAction, LegacyStore.Store.AddAction: an added
  composite must hold only objects the class made. A composite whose items
  come from elsewhere, or include `undefined`, has no place in the table, and
  the throw such an item causes in the next refold is not modelled.
- PipelineEngine.Pipeline.UngroupAction, LegacyStore.Store.UngroupAction and
  the toggles require the reference to be an object the class made. An
  object from elsewhere has no place in the table.
- In src/components/PipelineViewer.tsx, these are not part of this model:
  - the React state hooks, the dialog, the focus timer and the rendering;
  - `activateSelected`, `deactivateSelected`, `deleteSelected` and
    `unGroupSelected`, which only call the pipeline operations above once
    per selected id;
  - the colour functions `hashCode` and `intToRGB`, which are a
    `shade: string -> string` parameter.

## Findings

| source | as written | input that shows it | evidently intended | confidence | as-written member | corrected member |
|---|---|---|---|---|---|---|
| src/components/PipelineViewer.tsx:141 | `selectedIndices.slice().sort()` has no comparator, so it orders the indices by their decimal text | eleven actions with the last two selected: indices [9, 10] sort to [10, 9], and the check reports "not consecutive" | sort by value, so any run of neighbouring actions can be grouped | high; not executed | PipelineViewer.NineTenRefused | PipelineViewer.ConsecutiveMeansRange |
| src/components/PipelineViewer.tsx:135-144 | the check never asks whether each selected id is still on the list, and deleting an action with its own button (line 291) leaves its id selected | two neighbouring actions are ticked and the second is deleted: the indices [0, -1] pass (both sorts give [-1, 0]) and the request is [undefined, the kept action]; the pipeline then puts the composite before the last entry, and the next refold throws reading `active` of undefined (src/classes/Store.ts:77) | only ids of actions still on the list can form a group | medium; not executed | PipelineViewer.StaleSelectionGroups | PipelineViewer.SubmitGroupInListOrder |
| src/components/PipelineViewer.tsx:59 | the same text sort orders the items of the group request | the same selection requests [actions[10], actions[9]], and the composite then runs them in reverse | items in list order | medium; not executed. Through the Group button this cannot be reached while line 141 is as written (PipelineViewer.SubmitGroupAgrees) | PipelineViewer.NineTenReversed | PipelineViewer.SubmitGroupInListOrder |
