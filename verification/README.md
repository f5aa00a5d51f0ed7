# Jacdac service-specification queries and button-gesture adapter

A Dafny model of two self-contained pieces of the Jacdac TypeScript protocol
engine:

- **Service-specification queries** (`src/dom/spec.ts`, module `SpecQueries`):
  looking up a service specification in the catalogue by short name and by
  numeric class identifier, the recursive `extends` compatibility check
  `isInstanceOf`, the storage-type to number-format table, the integer-type
  recogniser, the register-kind predicate and fixed-point scaling. The
  catalogue, which the program loads once from `spec.json`, is a parameter:
  a sequence of records with `shortId`, `classIdentifier` and the `extends`
  name list (called `extendsList`, because `extends` is a Dafny keyword).
- **Button-gesture adapter** (`src/servers/buttongestureadapter.ts`, module
  `ButtonGesture`): the state machine that turns a bound button's `down` /
  `up` events into `Click`, `DoubleClick`, `MultiClick`, `ClickHold`,
  `MultiClickHold` and `HoldRelease` gestures, and the single-assignment
  attachment of the role manager. Each `setTimeout` callback becomes a pending
  timer `(kind, tag)` in a multiset; the tag is the event counter when the
  timer was armed. Wall-clock time is replaced by nondeterminism: any pending
  timer may fire at any step (input `FireHold(tag)` / `FireReset(tag)`), and
  it acts only if its tag still equals the event counter.

`Wrappers` holds the `Option` and `Result` types.

Design points:

- `isInstanceOf` has no cycle guard in the source: a compatibility check that
  ends on a cyclic catalogue would need a visited set or a depth bound, and
  the code has neither; the model follows the code. `IsInstanceOf` therefore
  requires `Ranked(cat, rank)`: a ghost map from class identifiers to natural
  numbers that strictly decreases along every resolved `extends` name of the
  entries class lookup can reach (the first entry of each class; a later
  entry with the same class identifier is never read and is unconstrained).
  Such a rank guarantees that the source's recursion ends, and it is the
  termination measure. On catalogues that may be cyclic, `InstanceOfWithin`
  runs the check as written with a bounded recursion depth, and
  `InstanceOfGuarded` is a check that ends on every catalogue; both agree
  with `IsInstanceOf` on ranked catalogues (see Findings).
- The code scans the catalogue linearly and returns the FIRST match; it keeps
  no lookup index. The model follows the code (`IndexWhere`), so duplicate
  names or class identifiers resolve to the earliest entry
  (`ShadowedDuplicateIsIgnored`).
- `serviceSpecificationFromName` computes a lower-cased, trimmed copy of the
  name and never uses it. The comparison is exact (`NameLookupIsExact`).
- `scaleValue` divides by JavaScript's `1 << shift`. The model computes that
  shift exactly: the count is taken modulo 32, and the result wraps to a
  signed 32-bit value. So a shift of 31 divides by -2^31, and an absent shift
  divides by 1.
- Firing a timer that is not pending does nothing (`Step`): only armed
  callbacks can run.
- The button's `down` and `up` event codes are module constants (0x01 and
  0x02, the button service's `down` and `up` events). The constants file that
  defines them is not part of this model. No property depends on their values
  beyond their being distinct.
- The source's `assert` on a second role-manager attachment throws. The model
  returns the error `ResettingRoleManager` instead of requiring the caller to
  avoid it.
- A first attachment stores the role manager before `onRoleManager` runs. The
  lookup of the button role can then fail in two ways: the role is unbound,
  so reading `serviceClass` of `undefined` throws; or the bound service is not
  a button, so the `SRV_BUTTON` assertion throws. Either way the role manager
  stays stored and no event handler is installed. `SetRoleManager` returns the
  server together with the error, and `Deliver` checks the `subscribed` flag.
  The button service class is the constant 0x1473a263. The constants file that
  defines it is not part of this model.

## Model

| member | source | states |
|---|---|---|
| SpecQueries.IndexWhere | src/dom/spec.ts:30 | the index returned is the first element satisfying the predicate; None means no element satisfies it |
| SpecQueries.FromName | src/dom/spec.ts:28-31 | returns the first catalogue entry whose short name equals the raw name exactly; None iff no entry has that name |
| SpecQueries.FromClassIdentifier | src/dom/spec.ts:37-41 | None for a null/undefined identifier; otherwise the first entry with an equal class identifier, and None iff there is none |
| SpecQueries.NameLookupIsExact | src/dom/spec.ts:29-30 | the name is not case-folded or trimmed: "Button" and " button" do not find "button" |
| SpecQueries.IsInstanceOf | src/dom/spec.ts:11-22 | reflexive without any lookup; a positive answer for distinct classes implies the required class has strictly lower rank, so the recursion over `extends` ends on an acyclic catalogue |
| SpecQueries.RankStep | src/dom/spec.ts:17-20 | on a ranked catalogue each resolved `extends` name of the class's spec leads to a class of strictly lower rank |
| SpecQueries.InstanceOfUnfold | src/dom/spec.ts:17-21 | for distinct classes, compatible iff the class's spec has an `extends` name resolving to a class that is compatible; unresolved names and a missing spec contribute nothing |
| SpecQueries.InstanceOfIffChain | src/dom/spec.ts:11-22 | compatibility is exactly reachability along `extends` steps (both directions) |
| SpecQueries.InstanceImpliesChain | src/dom/spec.ts:11-22 | every compatible pair is joined by an `extends` chain |
| SpecQueries.ChainImpliesInstance | src/dom/spec.ts:11-22 | every `extends` chain yields compatibility |
| SpecQueries.ChainCons | src/dom/spec.ts:18-20 | one `extends` step followed by a chain is a chain |
| SpecQueries.ExtendsLowersRank | src/dom/spec.ts:18-20 | each `extends` step lowers the rank |
| SpecQueries.ChainAppend | src/dom/spec.ts:17-21 | two `extends` chains meeting at a class join into one chain |
| SpecQueries.InstanceOfTransitive | src/dom/spec.ts:11-22 | compatibility is transitive |
| SpecQueries.InstanceOfAntisymmetric | src/dom/spec.ts:11-22 | on an acyclic catalogue, compatibility both ways implies equal classes |
| SpecQueries.ExtendsImpliesInstance | src/dom/spec.ts:11-22 | if B's spec extends a name resolving to A then B is an instance of A, and A is not an instance of B |
| SpecQueries.InstanceOfWithin | src/dom/spec.ts:11-22 | the check as written on any catalogue, recursion depth bounded: reflexive without lookup, `false` for a class without a spec at any depth above zero; how the `some` over the spec's `extends` names decides is stated by `SomeExtendsDecides` |
| SpecQueries.SomeExtends | src/dom/spec.ts:18-21 | the `some` over the `extends` names: `false` once the names are exhausted |
| SpecQueries.SomeExtendsStep | src/dom/spec.ts:18-21 | one step of the `some`: a name that does not resolve or resolves to an incompatible class passes on to the next name; a compatible one answers `true`; one whose check gives no answer leaves the `some` without an answer |
| SpecQueries.SomeExtendsDecides | src/dom/spec.ts:18-21 | the `some` is decided by the first name that is neither unresolved nor incompatible: `true` if that name is compatible, no answer if its check gives none, `false` if there is no such name; later names are never consulted |
| SpecQueries.SomeExtendsFirstHit | src/dom/spec.ts:18-21 | the `some` answers `true` iff some name is compatible and every earlier name is unresolved or incompatible, and `false` iff every name is unresolved or incompatible |
| SpecQueries.WithinAgreesWithRanked | src/dom/spec.ts:11-22 | on an acyclic catalogue, any depth above the class's rank answers, and the answer is `IsInstanceOf` |
| SpecQueries.SomeExtendsAgrees | src/dom/spec.ts:18-21 | on an acyclic catalogue, the `some` over the names from a position answers whether one of them resolves to a compatible class |
| SpecQueries.SelfExtendingIsUnranked | src/dom/spec.ts:17-21 | a catalogue whose spec extends its own name has no rank, so it lies outside the acyclic precondition |
| SpecQueries.SelfExtendingNeverAnswers | src/dom/spec.ts:17-21 | as written, the self-extending class compared with another class never answers at any recursion depth |
| SpecQueries.CompatibleFirstAnswers | src/dom/spec.ts:17-21 | a spec extending `["b", "a"]`, itself being "a": "b" is tried first and is the class asked for, so the check answers `true` at every depth of at least one and the cycle is never followed |
| SpecQueries.SelfFirstNeverAnswers | src/dom/spec.ts:17-21 | the same spec extending `["a", "b"]`: the self-reference is tried first, so the check never answers at any depth although "b" is compatible |
| SpecQueries.InstanceOfGuarded | src/dom/spec.ts:11-22 | with a visited-class guard: reflexive, `false` for a class already on the path, and terminating on every catalogue |
| SpecQueries.GuardedAgreesWithRanked | src/dom/spec.ts:11-22 | on an acyclic catalogue, the guarded check equals `IsInstanceOf` whenever the visited classes rank above the current one |
| SpecQueries.GuardedIsInstanceOf | src/dom/spec.ts:11-22 | from an empty path, the guarded check equals `IsInstanceOf` on every acyclic catalogue |
| SpecQueries.GuardedAnswersOnSelfExtending | src/dom/spec.ts:17-21 | on the self-extending catalogue the guarded check answers `false` |
| SpecQueries.ShadowedDuplicateIsIgnored | src/dom/spec.ts:17-21 | a later entry repeating a class identifier is never read: a catalogue whose shadowed duplicate extends itself is still ranked, and the check answers `false` at once, as the source's unguarded recursion (`InstanceOfWithin`) does |
| SpecQueries.IsRegister | src/dom/spec.ts:43-45 | a packet is a register iff its kind is one of `const`, `ro`, `rw` |
| SpecQueries.NonRegisterKinds | src/dom/spec.ts:43-45 | event, command and report packets are not registers |
| SpecQueries.DigitRun | src/dom/spec.ts:48 | the run of digits counted is maximal: all digits, followed by the end or a non-digit |
| SpecQueries.IntegerPatternByRun | src/dom/spec.ts:48 | the regular expression `^[ui]\d+(\.\|$)` holds iff the maximal digit run after the letter is non-empty and followed by `.` or the end |
| SpecQueries.IsIntegerType | src/dom/spec.ts:47-49 | true iff the type matches `^[ui]\d+(\.\|$)` or is `pipe_port` or `bool` |
| SpecQueries.IntegerTypeExamples | src/dom/spec.ts:47-49 | `u0.16`, `i32`, `u8`, `bool`, `pipe_port` are integer types; `u`, `f32`, `i32x`, `u.5` are not |
| SpecQueries.NumberFormatFromStorageType | src/dom/spec.ts:51-64 | defined exactly for ±1, ±2, ±4, ±8; then the width is the absolute value, signed iff negative, little-endian; 0 and all other values give null |
| SpecQueries.StorageTypeRoundTrip | src/dom/spec.ts:51-64 | the table is a bijection between the eight storage types and the eight little-endian integer formats |
| SpecQueries.ToInt32 | src/dom/spec.ts:67 | the wrapped value is in the signed 32-bit range and congruent to the input modulo 2^32 |
| SpecQueries.ShiftOne | src/dom/spec.ts:67 | `1 << shift` is 2^shift for counts 0..30 modulo 32, -2^31 for count 31, 1 for an absent shift; never 0 |
| SpecQueries.ScaleValue | src/dom/spec.ts:66-68 | for shifts 0..30, multiplying the result by 2^shift gives back the raw value; an absent shift leaves the value unchanged; shift 31 negates the scale |
| ButtonGesture.OnDown | src/servers/buttongestureadapter.ts:78-96 | increments the event counter, enters `down_click`, keeps the click count, emits nothing, arms one hold check tagged with the new counter |
| ButtonGesture.OnUp | src/servers/buttongestureadapter.ts:98-127 | in `down_click`: both counters increment, `up_click`, exactly one of Click/DoubleClick/MultiClick for a count of 1/2/≥3, one reset check armed; in `down_held`: HoldRelease, `up`, click count 0, event counter unchanged, nothing armed; otherwise no change |
| ButtonGesture.OnHoldTimer | src/servers/buttongestureadapter.ts:84-95 | acts only if its tag equals the event counter: ClickHold iff no prior click, else MultiClickHold, and `down_held`; a stale check only removes itself |
| ButtonGesture.OnResetTimer | src/servers/buttongestureadapter.ts:115-120 | acts only if its tag equals the event counter: `up` with click count 0, emitting nothing; a stale check only removes itself |
| ButtonGesture.Step | src/servers/buttongestureadapter.ts:78-127 | the event counter never decreases; a timer that is not pending has no effect; a stale timer changes nothing but its own removal and emits nothing |
| ButtonGesture.StepPending | src/servers/buttongestureadapter.ts:78-127 | a source event adds exactly the timers it arms to the pending ones; a firing timer removes itself and arms nothing |
| ButtonGesture.InitialInv | src/servers/buttongestureadapter.ts:38-47 | the initial adapter (`up`, both counters 0, nothing pending) satisfies the staleness invariant |
| ButtonGesture.DownPreservesInv | src/servers/buttongestureadapter.ts:78-96 | a `down` event keeps the invariant |
| ButtonGesture.UpPreservesInv | src/servers/buttongestureadapter.ts:98-127 | an `up` event keeps the invariant |
| ButtonGesture.HoldTimerPreservesInv | src/servers/buttongestureadapter.ts:84-95 | a pending hold check firing keeps the invariant |
| ButtonGesture.ResetTimerPreservesInv | src/servers/buttongestureadapter.ts:115-120 | a pending reset check firing keeps the invariant |
| ButtonGesture.StepPreservesInv | src/servers/buttongestureadapter.ts:78-127 | every step keeps the invariant: each pending timer is pending once with a tag between 1 and the event counter, a live hold check iff `down_click`, a live reset check iff `up_click`, no clicks counted while `up`, at least one click counted while `up_click` |
| ButtonGesture.AtMostOneLiveTimer | src/servers/buttongestureadapter.ts:79-85 | under the invariant at most one pending timer is live, and which one is fixed by the phase |
| ButtonGesture.GestureSources | src/servers/buttongestureadapter.ts:84-125 | under the invariant a step emits at most one gesture: a click gesture iff `up` arrives in `down_click`, a hold gesture iff the hold check tagged with the current counter fires in `down_click`, `HoldRelease` iff `up` arrives in `down_held` |
| ButtonGesture.Run | src/servers/buttongestureadapter.ts:43 | the event counter never decreases over any sequence of inputs |
| ButtonGesture.RunPreservesInv | src/servers/buttongestureadapter.ts:78-127 | the invariant holds after any sequence of inputs |
| ButtonGesture.StaleTimerStaysInert | src/servers/buttongestureadapter.ts:85 | a timer armed before the latest counter increment stays inert whatever happens afterwards |
| ButtonGesture.FiringAfterReleaseIsQuiet | src/servers/buttongestureadapter.ts:115-120 | once released, timers alone emit nothing and never re-enter a press |
| ButtonGesture.FiringWhileReleased | src/servers/buttongestureadapter.ts:84-120 | while released, one firing timer emits nothing and leaves the adapter released |
| ButtonGesture.PressReleaseIsOneClick | src/servers/buttongestureadapter.ts:78-116 | down then up, followed by any firing of pending timers, emits exactly the click gesture for the new count and no hold gesture |
| ButtonGesture.SingleClickFromRest | src/servers/buttongestureadapter.ts:78-116 | from rest, down then up emits one Click and never a ClickHold |
| ButtonGesture.HoldFromRest | src/servers/buttongestureadapter.ts:84-126 | a press held until its check fires emits ClickHold, its release HoldRelease, and the adapter is back at rest |
| ButtonGesture.DoubleClickFromRest | src/servers/buttongestureadapter.ts:78-120 | from any rest state, two quick clicks whose first hold and reset checks fire late emit exactly Click then DoubleClick: the superseded checks are inert |
| ButtonGesture.FirstClickRun | src/servers/buttongestureadapter.ts:78-112 | from rest, down, up and the late hold check emit Click and leave the adapter released after one click with only the reset check pending |
| ButtonGesture.SecondClickRun | src/servers/buttongestureadapter.ts:78-120 | after one click, down, the first click's late reset check and up emit DoubleClick, with two clicks counted |
| ButtonGesture.Dispatch | src/servers/buttongestureadapter.ts:66-74 | a batch of codes that are neither `down` nor `up` leaves the adapter unchanged and emits nothing |
| ButtonGesture.SourceInputs | src/servers/buttongestureadapter.ts:69-73 | only `down` and `up` codes become adapter inputs |
| ButtonGesture.DispatchRunsSourceInputs | src/servers/buttongestureadapter.ts:66-74 | dispatching a batch is running its `down`/`up` events in order and dropping every other code |
| ButtonGesture.DispatchSkipsOtherCode | src/servers/buttongestureadapter.ts:69-73 | a leading code that is neither `down` nor `up` contributes nothing to the dispatch |
| ButtonGesture.DispatchStepsOnSourceCode | src/servers/buttongestureadapter.ts:69-73 | a leading `down` or `up` code is one adapter step followed by the rest of the batch |
| ButtonGesture.NewServer | src/servers/buttongestureadapter.ts:36-60 | a new adapter has no role manager, is not subscribed, and starts released with no clicks and nothing pending, satisfying the invariant |
| ButtonGesture.SetRoleManager | src/servers/buttongestureadapter.ts:25-64 | a second attachment fails and changes nothing; a first one stores the role manager and subscribes iff the button role is bound to a service of the button class, failing with the unbound-role error exactly when the role is unbound and the not-a-button error exactly when it is bound to another service class, in both cases keeping the stored role manager |
| ButtonGesture.AttachOnlyOnce | src/servers/buttongestureadapter.ts:25-30 | whatever the first attachment did, a second one fails and changes nothing |
| ButtonGesture.AttachedAdapterHearsButton | src/servers/buttongestureadapter.ts:62-74 | a new adapter attached to a role manager that binds its role to a button emits exactly what running that button's down/up events emits |
| ButtonGesture.MisboundAdapterIsDeaf | src/servers/buttongestureadapter.ts:62-66 | if the role is unbound or not a button the handler is never installed and delivered events change nothing |
| ButtonGesture.Deliver | src/servers/buttongestureadapter.ts:62-76 | only the adapter state can change; before the handler is installed nothing happens; after it, a batch runs its `down`/`up` events in order and ignores every other code |

## Left out

- Loading the catalogue from `spec.json` (src/dom/spec.ts:4-6): the catalogue is a parameter.
- SpecQueries.IsInstanceOf: requires an acyclic catalogue because the code has no cycle detection; cyclic catalogues are covered by `InstanceOfWithin` (bounded depth) and `InstanceOfGuarded`.
- SpecQueries.IsInstanceOf: class identifiers are integers; a null or undefined first argument is not modelled for this function (it is for `FromClassIdentifier`).
- IEEE floating point in `scaleValue`: values are reals, so division is exact.
- Number-buffer codec (`./buffer`): not part of this model; `NumberFormat` records only width, signedness and byte order.
- Real time and `setTimeout` delays (`clickTimeoutMs`, `multiClickTimeoutMs`): replaced by nondeterministic firing of pending timers, so timing scenarios are stated as input orders.
- `this.device.bus.timestamp` (src/servers/buttongestureadapter.ts:68): read but unused.
- `sendEvent` packet construction: gestures are a list of event names.
- Packing the click count into MultiClick/MultiClickHold events: unimplemented in the source (TODOs at lines 90 and 111).
- `RoleManager.getService` (src/servers/rolemanager.ts is not part of this model): modelled as a map from role names to the service class of the bound service.
- The `service.on(EVENT, …)` subscription mechanism: the `subscribed` flag stands for the installed handler.
- The unused `ready` field (line 37).

## Findings

| source | as written | input that shows it | evidently intended | confidence | as-written member | corrected member |
|---|---|---|---|---|---|---|
| src/dom/spec.ts:17-21 | `isInstanceOf` tries each resolved `extends` name left to right until one is compatible, with no record of the classes already on the path | a catalogue holding one spec, class 1, short name `loop`, extending `loop`; ask whether class 1 is an instance of class 2: the recursion never ends (`SelfExtendingNeverAnswers`); with the self-reference listed before a compatible name the same happens (`SelfFirstNeverAnswers`), and listed after it the check answers (`CompatibleFirstAnswers`) | the check ends on every catalogue, cyclic ones included, by guarding against classes already visited | medium, not executed | SpecQueries.InstanceOfWithin | SpecQueries.InstanceOfGuarded |
