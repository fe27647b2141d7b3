# RaceReady control-surface module: feedback queries and legacy merge

This project models two pure pieces of the RaceReady module for a
control-surface host. The module mirrors the state of a remote "race ready"
checklist application.

- **Feedback queries** (`Feedbacks`, from `feedbacks.js`). These are five
  callbacks that read the module's checklist state. The state holds the
  per-checklist action maps (checklist id → 1-based position → `{status, text}`),
  the current checklist id and the ordered checklist directory. From these the
  callbacks answer:
  - the status at a position;
  - the overall readiness of the current checklist;
  - the current checklist's name;
  - its `rank/total` label;
  - the action text at a position.
- **Legacy flat merge** (`LegacyMerge`, from the catch-all event handler in
  `main.js`). Each event's payload is folded into the module's per-id `state`
  object. Entries without an `id` are skipped. The status is coerced with `!!`.
  A later entry for an id overwrites an earlier one. After the fold, one
  `actiontext<id>` variable is exported for every id the state holds.

Supporting modules:
- `Wrappers` provides `Option`.
- `JsValues` models the JavaScript values that reach this logic, their
  truthiness, and their conversion to property keys.
- `Decimal` prints and parses non-negative integers, as a template literal
  prints a checklist rank.

Neither `main.js` nor `feedbacks.js` writes the checklist-mode fields (`checklistActions`,
`currentChecklistId`, `checklists`), so the queries take that state as an
input record (`Feedbacks.View`). The model adds no merge rules for it.

Where the code does something other than its own comments say, the model
follows the code:
- **Overall readiness.** The comments say the feedback checks that all actions
  of the current checklist "are complete", and returns true "only if there are
  actions and all are complete" (`feedbacks.js:43`, `feedbacks.js:51`). The
  loop, however, fails only on a status *strictly equal* to `false`
  (`feedbacks.js:47`). So an action whose status is `undefined`, `0` or `null`
  does not block readiness. `Feedbacks.OverallState` states the code's rule.
  Its last `ensures` shows the two readings agree when every status is a
  boolean.
- **Action text fallbacks.** With no current checklist, or no map for it, the
  text is `'No Checklist'`. With a map but an empty slot, it is `''`
  (`feedbacks.js:113-121`).
- **Inherited names.** `checklistActions[id]` also finds the properties every
  plain object inherits, such as `toString` or `constructor`. For such an id
  the guard passes with an empty action map, so the text is `''` rather than
  `'No Checklist'` (`Feedbacks.InheritedNameExample`).
- **One handler for every event.** In `main.js`, the only handler that reads
  payloads is the catch-all one. It applies the flat merge to every event,
  whatever its name. So the model ignores the event name.

## Model

| member | source | states |
|---|---|---|
| Feedbacks.CurrentActions | feedbacks.js:27 | The guard `currentChecklistId && checklistActions[currentChecklistId]` passes exactly when the id is present and non-empty, and is either an own key of `checklistActions` or a name inherited from `Object.prototype`. It yields the own map, or an empty map for an inherited name. |
| Feedbacks.InheritedNameExample | feedbacks.js:113-121 | With current id `toString` and no own entry for it, the status is `false`, the checklist is not ready, and the text is `''` rather than `'No Checklist'`. |
| Feedbacks.StatusAt | feedbacks.js:23-32 | The status stored at the position when the current map has an entry there. `false` when the map has no entry there, or when there is no truthy current id or no map for it. It never fails. |
| Feedbacks.OverallState | feedbacks.js:42-54 | The loop's answer is true exactly when a current map exists, it is non-empty, and no position's status is `=== false`. An unknown checklist and an empty map both give `false`. With boolean statuses, the answer means "non-empty and every status true". |
| Feedbacks.FindCurrent | feedbacks.js:84 | `findIndex` returns the first position whose id is strictly equal to the current id. It returns nothing exactly when no position matches. |
| Feedbacks.ChecklistName | feedbacks.js:64-71 | The name of the first checklist whose id equals the current id. `'Unknown'` when none matches. |
| Feedbacks.ChecklistIndexLabel | feedbacks.js:82-89 | The label is `'N/A'` exactly when no checklist matches the current id. |
| Feedbacks.IndexLabelReadsBack | feedbacks.js:84-87 | When a checklist matches, the label parses back as `rank/total` in canonical decimals, with `1 <= rank <= total == |checklists|`. The checklist at `rank` is the first one with the current id. `'N/A'` does not parse as a rank label. |
| Feedbacks.RankLabelIsCanonical | feedbacks.js:87 | Two strings that parse to the same rank and total are equal, so the label is fixed by the pair it denotes (no leading zeros). |
| Feedbacks.ActionName | feedbacks.js:109-122 | The stored text when the current map has an entry at the position. `''` for an empty slot of an existing map. `'No Checklist'` when there is no current map. |
| Feedbacks.TextFallbacksTellContextApart | feedbacks.js:113-121 | Unless a stored text is itself `'No Checklist'`, the text is `'No Checklist'` exactly when there is no current map, and `''` at an empty slot of an existing map. The status is `false` in the sentinel case. |
| Feedbacks.StatusAndNameAgree | feedbacks.js:113-121 | Status and text at a position come from the same stored action. Without an action, the status is `false` in both fallback cases. The text tells the two cases apart: `''` versus `'No Checklist'`. |
| Feedbacks.DirectoryExample | feedbacks.js:66-87 | Take the directory `[A 'Pre-Race', B 'Post-Race']`. With current id `B` the queries show `'Post-Race'` and `2/2`. With no current id they show `'Unknown'` and `N/A`. |
| JsValues.ToBoolean | main.js:70 | `!!v` is false exactly for `undefined`, `null`, `false`, `0`, `NaN` and `''`. |
| JsValues.CoercionExamples | main.js:70 | `!!` keeps booleans. It turns `1`, `"0"`, `"false"` and objects into `true`. |
| JsValues.PropertyKeyOfNumberIsItsDecimal | main.js:70 | An id given as the integer `n` uses the same state key as its decimal string. Any two different integers use different keys. |
| Decimal.NatToString | feedbacks.js:87 | The printed number is a canonical numeral: digits only, a leading `0` exactly for zero, and one digit exactly below ten. |
| Decimal.ParsePrinted | feedbacks.js:87 | Parsing the decimal digits printed for `n` gives back `n`. |
| Decimal.CanonicalIsPrinted | feedbacks.js:87 | Every canonical numeral is the printing of its own value, so each number has exactly one. |
| LegacyMerge.Upsert | main.js:64-70 | One step of the intended loop. An entry with an `id` overwrites exactly its key with `{status: !!status, text}`. Every other value leaves the state unchanged. This includes an id-less entry and also a `null` or `undefined` value, on which main.js:64 throws instead (see Findings). |
| LegacyMerge.LastNaming | main.js:63-70 | Finds the last payload position that writes a key, if any. Nothing is found exactly when no position writes the key. |
| LegacyMerge.Merge | main.js:63-71 | After the fold: a key is present iff it was before or some entry writes it. A written key holds the slot of the last entry that writes it. An unwritten key keeps its slot. |
| LegacyMerge.MergeKeys | main.js:63-71 | The merged keys are the old keys plus the keys the id-bearing entries write. The key set only grows. |
| LegacyMerge.MergeLeavesOthers | main.js:63-71 | A key that no entry of the payload writes keeps its slot. The merge is not destructive. |
| LegacyMerge.MergeStoresLastEntry | main.js:68-70 | An id-bearing entry that no later entry overrides sets its key to `{status: truthiness of the sent status, text: the sent text}`, whatever type the status has. |
| LegacyMerge.LaterEntryWins | main.js:63-70 | If a later entry writes the same id, an earlier entry has no effect on that id. Removing the earlier one leaves the id's slot the same. |
| LegacyMerge.MergeConcat | main.js:63-71 | Merging `p + q` equals merging `p` and then `q`. |
| LegacyMerge.MergeIdempotent | main.js:63-71 | Merging the same payload twice gives the same state as merging it once. |
| LegacyMerge.IdlessEntriesSkipped | main.js:64-67 | Merging a payload gives the same state as merging only its id-bearing entries. Entries without an `id` leave the state unchanged. |
| LegacyMerge.ExportTexts | main.js:75-78 | There is one variable `actiontext<k>` per state key `k`, holding `state[k].text`. Every exported name is `actiontext` followed by a state key, and holds that key's text. |
| LegacyMerge.OnAny | main.js:61-80 | The intended handler, which skips `null` and `undefined` values the way the loop already skips id-less entries. It always completes. Its state is the merge of the payload's id-bearing entries alone. It never drops a key. It exports exactly one `actiontext<k>` per state key `k`, holding that key's text. |
| LegacyMerge.ReplayIsOneMerge | main.js:61-71 | The state is never cleared between events. A run of events equals one merge of all their entries in order, and the starting keys survive. |
| LegacyMerge.NumericAndStringIdsShareSlot | main.js:64-70 | The ids `1` and `"1"` write the same slot, and the later one wins. The statuses `1` and `"0"` are both stored as `true`. |
| LegacyMerge.LoopAsWritten | main.js:63-71 | The loop as written stops early exactly when the payload holds a `null` or `undefined` value. It never drops a key that the state already had. |
| LegacyMerge.OnAnyAsWritten | main.js:61-80 | The handler as written throws exactly when the payload holds a `null` or `undefined` value. It never drops a key. When it completes, it exports each key's text as `actiontext<k>`. `AsWrittenAgreesWithoutNullish` shows it matches `OnAny` when no value is nullish. `AsWrittenThrowsAtFirstNullish` shows it throws with exactly the entries before the first nullish value merged. |
| LegacyMerge.AsWrittenAgreesWithoutNullish | main.js:63-79 | If the payload has no `null` or `undefined` value, the handler as written completes with the same state and variables as `OnAny`. |
| LegacyMerge.AsWrittenThrowsAtFirstNullish | main.js:64 | If the payload has a `null` or `undefined` value at position `i`, the handler as written throws. It has merged exactly the entries before `i` and exports nothing. |
| LegacyMerge.NullishValueAbortsMerge | main.js:64 | For `[null, {id: 1, status: true, text: 'Fuel'}]`, the handler as written throws with an empty state. `OnAny` stores id `"1"` as ready. |

## Left out

- Socket lifecycle is I/O over socket.io and is not modelled. This covers connect, disconnect, connection errors, reconnect on configuration change and destroy (`main.js:15-59`, `main.js:81-83`).
- `actions.js` is not modelled. Each action only checks the connection and emits a command.
- `variables.js` is not modelled. It only registers static variable definitions with the host.
- Host calls are not modelled: `checkFeedbacks`, `setVariableValues`, `setFeedbackDefinitions` and the configuration fields. Only the data passed to `setVariableValues` is modelled (`LegacyMerge.ExportTexts`).
- Feedback styling and metadata are not modelled: `combineRgb`, `defaultStyle`, option bounds and labels.
- Handlers for full snapshots, partial updates, checklist lists and the current checklist are not modelled. Neither `main.js` nor `feedbacks.js` writes `checklistActions`, `currentChecklistId` or `checklists`.
- Feedbacks.View: `checklistActions` is assumed to be an object and `checklists` an array. So the model drops two code paths. One is the `checklists.find` guard that yields `'Unknown'` for a non-array (`feedbacks.js:66`). The other is the TypeError raised by reading from an undefined `checklistActions` in the guards at `feedbacks.js:27`, `44` and `113` (once the current id is truthy), or from an undefined `checklists` at `feedbacks.js:84`. The code that sets these fields is not part of this model.
- Feedbacks.View: checklist ids and names are strings. A number id compared by `===` with a string id is not modelled. Action positions are integers, and a fractional position is not modelled.
- JsValues.JsValue: numbers are integers plus `NaN`. Fractional numbers, infinities, BigInt, symbols, arrays and functions are not modelled. An id is converted to a key as `String(id)`, and a plain object becomes `"[object Object]"`.
- JsValues.JsValue: `Num` is an unbounded integer. In JavaScript, `String(n)` switches to exponent form from `1e21`, so the id `1e21` and the id `"1e+21"` share a slot, while the model keys that number as 22 digits. Integers above 2^53 are not all distinct JavaScript numbers. Neither fact is modelled.
- Feedbacks.View: `checklistActions` is assumed to be a plain object. An own `__proto__` key, a replaced prototype, or an object without a prototype are not modelled.
- LegacyMerge.Merge: some key behaviour is not modelled. A `__proto__` id would replace the state's prototype rather than add a key. Keys inherited from a prototype would show up in `for ... in`.
- Feedbacks.OverallState: any order of positions is allowed, because the result does not depend on order. The model does not fix the engine's `for ... in` order.

## Findings

| source | as written | input that shows it | evidently intended | confidence | as-written member | corrected member |
|---|---|---|---|---|---|---|
| main.js:64 | `args[0][key]["id"]` reads a property of each payload value. A `null` or `undefined` value throws a TypeError. This stops the loop with the earlier entries already stored, and skips the variable export. | payload `[null, {id: 1, status: true, text: 'Fuel'}]` | Skip the value like an id-less entry. The flat format mixes action entries with other values, and the loop already `continue`s past entries without an id. | medium, not executed | LegacyMerge.AsWrittenThrowsAtFirstNullish | LegacyMerge.OnAny |
