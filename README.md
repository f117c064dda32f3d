# paramot-workbench trim validation engine, in Dafny

This project models the trim validation engine of the paramot-workbench
paraglider maintenance tool (`src/lib/validation`).

- **The APPI trim rule** (`appi-rules.ts`). The tolerance comes from the wing's
  aspect ratio. Each line group yields the deviations of its A, B and C lines
  (measured minus manufacturer length), the A-B and A-C differentials, loop
  counts for correction (one loop is about 10 mm), one message line and an
  entry in a `corrections` record keyed by group name. The rule fails when some
  group has a differential over the tolerance.
- **The validation service** (`service.ts`). A class holds a `Map` of rules
  keyed by id, in JavaScript `Map` order. The constructor registers the APPI
  rules. `addValidationRule` inserts or replaces a rule. `updateValidationRule`
  replaces a rule and throws when the id is unknown. `validateGlider` filters
  the rules for a glider's manufacturer and runs each selected rule, in
  registry order, through `validateRule`, which turns any thrown error into a
  failed result. The class also has a range check on a line length, a check
  of the spread of a set of lengths, and an empty validation history.

Modules:

- `Wrappers`: `Option` and `Result`.
- `Seqs`: element-wise mapping of sequences.
- `OrderedMaps`: an insertion-ordered map. It models a JavaScript `Map` and the
  key order of a plain object record.
- `Text`: string forms of integers, `join`, `includes`, and a `split` that reads a joined message back.
- `ValidationTypes`: the shapes from `types.ts` and the trim rule's input.
- `Appi`: the trim rule.
- `Service`: the service class and its pure checks.

Modelling choices:

- Lengths are integer millimetres and the aspect ratio is a `real`.
  `Math.round(d / 10)` is written as `floor(d / 10 + 1/2)` over the reals, as
  JavaScript defines it.
- A rule's `validate` is either the APPI trim check or an arbitrary custom
  function from the data to an `Outcome`. An outcome either returns a result
  or throws a value, which is an `Error` with a message or any other value.
  Every call is treated as synchronous.
- `validateGlider` passes the glider context to each rule as its data. The
  APPI rule, given that data, reaches `for (const group of undefined)` and
  throws. The model says so, though the filter never selects that rule.
- The optional `manufacturerSpecific` property is an `Option<bool>`.
  `None` means the property is absent. `Some(b)` means it is present and
  its truthiness is `b`. A rule that is truthy there and has no
  `appiReference` makes the filter throw a `TypeError`. Then
  `validateGlider` rejects, which the model gives as a `Failure`.
- The differentials are A-B and A-C only, measured against the A line;
  there is no shortest-line reference. `loopsA` is always 0. Loop counts are
  not clamped and can be negative. Every group gets its own line, even when
  all of them pass. JavaScript's `Math.round` rounds ties upward, so 5 mm
  gives 1 loop and -5 mm gives 0 loops. A zero or negative aspect ratio is
  not rejected: it gets 20 mm.
- `split` is not used by the engine. The model reads the joined message back
  into lines with it (the form a display that breaks at line feeds shows),
  so that the one-line-per-group property can be stated.

## Model

| member | source | states |
|---|---|---|
| Appi.GetAppiDeviationLimit | src/lib/validation/appi-rules.ts:4-9 | the tolerance is 20 exactly when aspect ≤ 5, 15 exactly when 5 < aspect ≤ 6, 10 exactly when aspect > 6, and always one of 10, 15, 20 |
| Appi.LimitNonIncreasing | src/lib/validation/appi-rules.ts:4-9 | a larger aspect ratio never gets a larger tolerance |
| Appi.PresetTolerances | src/lib/validation/presets.ts:5-56 | aspect 6.44 gives 10 mm, 6.0 gives 15 mm and 7.0 gives 10 mm, as the presets' `tolerance` fields record |
| Appi.JsRound | src/lib/validation/appi-rules.ts:13 | `Math.round` returns the integer within one half of its argument, with ties going up |
| Appi.SuggestCorrectionLoops | src/lib/validation/appi-rules.ts:12-14 | the loop count times 10 is within [-5, 5) mm of the deviation |
| Appi.LoopsFormula | src/lib/validation/appi-rules.ts:12-14 | for whole millimetres, loops = floor((d + 5) / 10) |
| Appi.LoopsBoundaries | src/lib/validation/appi-rules.ts:12-14 | 0 mm gives 0 loops, 5 gives 1, -5 gives 0, -6 gives -1 and 15 gives 2, so ties go up and there is no clamping at 0 |
| Appi.Violates | src/lib/validation/appi-rules.ts:43-55 | the verdict of one group: its A-B or A-C differential exceeds the limit in absolute value |
| Appi.ViolatesIff | src/lib/validation/appi-rules.ts:43-55 | a group violates exactly when (A deviation − B deviation) or (A deviation − C deviation) lies outside the closed band from −limit to +limit, stated on the raw lengths |
| Appi.Exceeds | src/lib/validation/appi-rules.ts:55 | the test `Math.abs(AB) > limit` or `Math.abs(AC) > limit` on two differentials |
| Appi.CorrectionFor | src/lib/validation/appi-rules.ts:43-53 | the record written for one group |
| Appi.CorrectionForFields | src/lib/validation/appi-rules.ts:43-53 | in a group's record, AB and AC are the A-B and A-C differentials of the deviations, loopsA is 0, and loopsB and loopsC times 10 are within [−5, 5) mm of AB and AC |
| Appi.CorrectionTable | src/lib/validation/appi-rules.ts:39-53 | the corrections record after writing each group's record under its name, in group order |
| Appi.TrimResult | src/lib/validation/appi-rules.ts:67-72 | the result `validate` returns for a trim input, the timestamp aside |
| Appi.TrimResultMeaning | src/lib/validation/appi-rules.ts:67-72 | the result is `fail` exactly when some group violates the limit and `pass` otherwise; details hold a well-formed corrections record whose keys are exactly the group names; no groups give an empty message |
| Appi.GroupLines | src/lib/validation/appi-rules.ts:41-64 | exactly one message line per group |
| Appi.GroupLinesExtend | src/lib/validation/appi-rules.ts:57-63 | each group pushes its own line after the lines of the groups before it |
| Appi.CorrectionTableExtend | src/lib/validation/appi-rules.ts:53 | each group writes its correction under its name after the earlier groups' writes |
| Appi.AnyViolatesExtend | src/lib/validation/appi-rules.ts:55-56 | `hasError` after a group is its earlier value or that group's violation |
| Appi.GroupLineVerdict | src/lib/validation/appi-rules.ts:55-64 | a group's line starts with "<name>: Differential out of tolerance" exactly when abs(A-B) or abs(A-C) exceeds the limit, and with "<name>: Differential OK" exactly when neither does, so a differential equal to the limit passes |
| Appi.Figures | src/lib/validation/appi-rules.ts:58-62 | the figures part of a line, `(A-B: …mm, A-C: …mm, limit: ±…mm)`, has no line break |
| Appi.MessageLine | src/lib/validation/appi-rules.ts:55-63 | the line of a group with a given name and differentials (verdict words, then the figures) has no line break when the name has none |
| Appi.GroupLine | src/lib/validation/appi-rules.ts:57-63 | a group's own line, built from its name and its A-B and A-C differentials |
| Appi.GroupLineHasNoNewline | src/lib/validation/appi-rules.ts:58-62 | a group line has no line break when the group's name has none |
| Appi.TrimMessageLines | src/lib/validation/appi-rules.ts:55-69 | splitting the message at '\n' gives back exactly one line per group, in input order, each that group's line, whenever group names hold no line break |
| Appi.CorrectionTableValid | src/lib/validation/appi-rules.ts:39-53 | the corrections record is a well-formed key-ordered record |
| Appi.CorrectionTableKeys | src/lib/validation/appi-rules.ts:53 | the corrections record has exactly one key per distinct group name |
| Appi.CorrectionTableLastWins | src/lib/validation/appi-rules.ts:53 | the entry for a name is the correction of the last group with that name |
| Appi.CorrectionTableLoops | src/lib/validation/appi-rules.ts:47-53 | every entry has loopsA = 0, loopsB = loops(AB) and loopsC = loops(AC) |
| Appi.FirstIndex | src/lib/validation/appi-rules.ts:53 | the position of the first group with a name, or the length when there is none |
| Appi.FirstIndexExtend | src/lib/validation/appi-rules.ts:53 | appending a group keeps every earlier first position |
| Appi.CorrectionKeysInFirstOccurrenceOrder | src/lib/validation/appi-rules.ts:53 | the record's keys are in the order in which their names first appear among the groups |
| Appi.KeptKeysKeepFirstIndex | src/lib/validation/appi-rules.ts:53 | a later group leaves the first positions of the keys already present unchanged, and a new name's first position is its own |
| Appi.OtherFamiliesIgnored | src/lib/validation/appi-rules.ts:27-72 | two inputs with the same aspect ratio and groups that agree on names and A, B, C lengths give the same result, whatever other line families they carry |
| Appi.LinesAgree | src/lib/validation/appi-rules.ts:55-64 | such groups give the same message lines |
| Appi.ViolationsAgree | src/lib/validation/appi-rules.ts:55-56 | such groups give the same verdict |
| Appi.SameLine | src/lib/validation/appi-rules.ts:58-62 | two such groups have the same message line |
| Appi.CorrectionTablesAgree | src/lib/validation/appi-rules.ts:53 | such groups give the same corrections record |
| Appi.BonanzaLongALineFails | src/lib/validation/presets.ts:2-25 | the Bonanza 2 XS first group with its A line 15 mm long fails, with A-B = A-C = 15 mm and 2 loops on B and on C |
| Appi.CheckGroup | src/lib/validation/appi-rules.ts:43-64 | one pass of the loop computes the group's correction, its line and its violation |
| Appi.ValidateTrim | src/lib/validation/appi-rules.ts:35-72 | the loop's result is the specified trim result; the status is `fail` exactly when some group violates the limit, and otherwise `pass`; no groups gives `pass`, an empty message and an empty corrections record |
| Appi.TrimOutcome | src/lib/validation/appi-rules.ts:26-73 | `validate` on trim data returns a `pass` or `fail` result; on a glider context, which has no `groups`, it throws `NotIterable`, a stand-in for the engine's `TypeError` text |
| Appi.AppiTrimRuleFields | src/lib/validation/appi-rules.ts:17-25 | the rule record: id `APPI_TRIM`, safety category, critical severity, reference `APPI-TRIM-001`, not manufacturer specific, technician input required |
| Appi.AppiRulesList | src/lib/validation/appi-rules.ts:76-77 | `appiRules` holds the trim rule alone |
| Appi.Validate | src/lib/validation/appi-rules.ts:26-73 | trim data returns a `pass` or `fail` result; a glider context, which has no groups, throws |
| OrderedMaps.OrderedMap.Set | src/lib/validation/service.ts:51 | after `set(k, v)`, `k` maps to `v` and every other key keeps its value; an existing key keeps its position and a new key goes last |
| OrderedMaps.OrderedMap.Values | src/lib/validation/service.ts:29 | `values()` lists the values in key order |
| OrderedMaps.Empty | src/lib/validation/service.ts:8 | `new Map()` has no keys |
| OrderedMaps.SetValid | src/lib/validation/service.ts:51 | `set` keeps the keys distinct and in step with the entries |
| OrderedMaps.SetIdempotent | src/lib/validation/service.ts:50-52 | setting the same key to the same value twice is the same as once |
| OrderedMaps.SetValues | src/lib/validation/service.ts:29 | after `set`, `values()` gains the value at the end for a new key, or has it in the key's old position |
| Text.NatToString | src/lib/validation/appi-rules.ts:58 | the decimal form of a natural number is a non-empty digit string without a leading zero |
| Text.IntToString | src/lib/validation/appi-rules.ts:58 | the decimal form of an integer is well formed and has no line break |
| Text.IntToStringRoundTrip | src/lib/validation/appi-rules.ts:58 | reading back the decimal form of an integer gives the integer |
| Text.NegativeRoundTrip | src/lib/validation/appi-rules.ts:58 | the same for a minus sign in front of a natural number |
| Text.NatToStringRoundTrip | src/lib/validation/appi-rules.ts:58 | reading back the decimal form of a natural number gives the number |
| Text.Join | src/lib/validation/appi-rules.ts:69 | `results.join('\n')`: the lines with one separator between neighbours, "" for no lines |
| Text.Split | src/lib/validation/appi-rules.ts:69 | reads the joined message back into lines (JavaScript `split` semantics); always at least one piece |
| Text.SplitWithoutSeparator | src/lib/validation/appi-rules.ts:69 | reading back: a string without the separator splits into itself |
| Text.SplitAtFirstSeparator | src/lib/validation/appi-rules.ts:69 | reading back: a separator after a separator-free prefix splits off that prefix |
| Text.SplitJoin | src/lib/validation/appi-rules.ts:69 | reading back a `join` of separator-free lines gives back the lines |
| Text.Includes | src/lib/validation/service.ts:33 | `appiReference.includes(manufacturer)`, as a scan from the left; its meaning is stated by IncludesIff |
| Text.IncludesIff | src/lib/validation/service.ts:33 | `includes` holds exactly when the string occurs at some position |
| Service.Applicable | src/lib/validation/service.ts:29-34 | a rule applies exactly when it lacks `manufacturerSpecific`, or has it truthy and its `appiReference` contains the manufacturer; the filter throws exactly when the flag is truthy and the reference is missing, with `MissingReference`, a stand-in for the engine's `TypeError` text |
| Service.AppiTrimNeverSelected | src/lib/validation/appi-rules.ts:24 | the APPI trim rule is never selected, since it declares `manufacturerSpecific: false` |
| Service.SelectApplicable | src/lib/validation/service.ts:29-34 | the filter throws exactly when testing some rule throws |
| Service.ApplicablePositions | src/lib/validation/service.ts:29-34 | the positions of the applicable rules, increasing and complete |
| Service.SelectionInRegistryOrder | src/lib/validation/service.ts:29-34 | a successful filter keeps exactly the applicable rules, in registry order |
| Service.RunValidate | src/lib/validation/service.ts:15 | `rule.validate(data)`: the APPI trim check's outcome, or the custom rule's own outcome |
| Service.Guard | src/lib/validation/service.ts:14-22 | a returned result passes unchanged; a thrown value gives `fail`, no details, and "Validation error: " followed by the error's message, or "Unknown error" for a non-`Error` |
| Service.RuleResult | src/lib/validation/service.ts:13-23 | what `validateRule` resolves to: the guard applied to the rule's outcome |
| Service.ValidateRule | src/lib/validation/service.ts:13-23 | a rule that returns gives its result unchanged; a thrown value gives `fail`, no details, and a message of "Validation error: " followed by the error's message, or by "Unknown error" for a non-`Error` |
| Service.Registry | src/lib/validation/service.ts:10 | setting each rule of a list under its id, in order, gives a well-formed map with every rule under its own id |
| Service.GliderResults | src/lib/validation/service.ts:25-43 | what `validateGlider` resolves to: the filtered rules, each run through the guard with the context as data, or the filter's error |
| Service.GliderResultsMeaning | src/lib/validation/service.ts:25-43 | `validateGlider` rejects exactly when testing some registered rule throws; otherwise one guarded result per selected rule, in order |
| Service.RegistryOfDistinctIds | src/lib/validation/service.ts:7-11 | rules with distinct ids are registered in list order, each under its id |
| Service.DefaultRegistryRunsNothing | src/lib/validation/service.ts:7-43 | with only the built-in rules, `validateGlider` returns no results for any glider |
| Service.AddedGeneralRuleRunsLast | src/lib/validation/service.ts:29-52 | a rule without `manufacturerSpecific` added under a new id runs after all the rules already registered |
| Service.ValidateLineLength | src/lib/validation/service.ts:62-82 | `fail` exactly when the length is below the minimum or above the maximum, `pass` on both bounds, no details |
| Service.MaxOf | src/lib/validation/service.ts:89 | `Math.max` of non-empty values is one of them and at least every one |
| Service.MinOf | src/lib/validation/service.ts:90 | `Math.min` of non-empty values is one of them and at most every one |
| Service.ValidateLineDifferential | src/lib/validation/service.ts:84-105 | `fail` exactly when two of the measured lengths differ by more than the allowed differential, so names and order do not matter; no measurements passes |
| Service.SpreadExceedsIff | src/lib/validation/service.ts:88-93 | max − min exceeds a bound exactly when some pair of lengths does |
| Service.ValidationService.constructor | src/lib/validation/service.ts:7-11 | the registry holds exactly the APPI rules, under their ids, in list order: only `APPI_TRIM` |
| Service.ValidationService.AddValidationRule | src/lib/validation/service.ts:50-52 | the rule is set under its id (new ids last, existing ids in place, others unchanged); the registry stays keyed by id |
| Service.ValidationService.UpdateValidationRule | src/lib/validation/service.ts:54-59 | an unknown id fails with "Validation rule <id> not found" and changes nothing; a known id is replaced in place, and the key order is unchanged |
| Service.ValidationService.ValidateGlider | src/lib/validation/service.ts:25-43 | the loop returns one guarded result per selected rule, in registry order, with the context as data; the call rejects exactly when the filter throws on some rule |
| Service.ValidationService.GetValidationHistory | src/lib/validation/service.ts:45-48 | the history is always empty |

## Left out

- `timestamp: new Date()` on every result is a clock reading. Results carry no timestamp.
- `async`/`await`: every call is synchronous. A rejected promise and a thrown error are the same `Threw` outcome.
- The Zod schemas and `MeasurementValidation` in `types.ts` are never used by the engine.
- The glider context's `lastInspection` date is never read by the engine.
- Floating point: lengths are whole millimetres, so a fractional, `NaN` or missing length is not modelled. A `NaN` or `undefined` aspect ratio, which the source sends to the 10 mm bucket, is not modelled either.
- Number formatting is modelled for integers only. Exponent forms and fractions are not modelled.
- Engine-specific error text: `Appi.NotIterable` and `Service.MissingReference` are stand-ins for the messages of the `TypeError`s that the APPI rule and the filter throw. The source does not fix that text; it depends on the engine and on how the code is bundled. Only the guard around them is proved.
- Custom rules are total functions from data to an outcome. Side effects, non-termination and rules that mutate the registry are not modelled.
- Plain-object key order for integer-like keys: JavaScript lists keys such as "1" or "2" before the others, and `__proto__` is special. The corrections record and `Object.values` keep plain insertion order.
- Service.ValidateLineDifferential: takes an ordered map of whole-millimetre lengths. An empty object passes with the fixed message that `-Infinity` gives; it is not derived from floating-point arithmetic.
- The exported singleton `validationService` is one call of the constructor.
- The electron shell, database repositories, seed data and React components lie outside the validation engine and are not part of this model.
