# Custom load-state injection, modelled in Dafny

This project models the core of SOD-CustomStateInjector-Miami, a plugin for a game. The game
builds a city through a fixed, linear enumeration of load states (`CityConstructor.LoadState`).
The plugin splices extra steps into that sequence without changing the game's code. Every
extra step is declared as "step `X` runs after step `A`" and receives an ordinal past the
native enumeration. Two hooks around the game's `Update` then rewrite the current load state:

- The postfix notices that the tick started at a state with a pending step spliced after it,
  and redirects the game to that step's ordinal.
- On the next tick, the prefix sees the game sitting on a custom ordinal. It runs the
  registered generator for every step in the chain that starts at the splice point and
  removes those steps from the pending list. It then rewinds the game to the splice point,
  so the game's own `Update` carries on from there.

The model has nine modules:

| module | file | what it models |
|---|---|---|
| `Wrappers` | `wrappers.dfy` | `Option` and `Result` |
| `Lists` | `lists.dfy` | the .NET list operations the plugin uses: `Find`, `Remove`, LINQ `Where` |
| `Steps` | `steps.dfy` | `Step` and `CustomStep`, with their `Equals`/`GetHashCode` overrides |
| `StepGraph` | `step_graph.dfy` | `GetLoadState` and startup registration of the declared steps |
| `Generators` | `generators.dfy` | the generator registry, its validation against the steps, and `Generate` |
| `Chains` | `chains.dfy` | `FindConsecutiveSteps`: the step map and the walk along it |
| `Interception` | `interception.dfy` | the `Update` prefix and postfix, one tick, and runs of ticks |
| `Plugin` | `plugin.dfy` | startup registration feeding the per-tick splice |
| `Scenarios` | `scenarios.dfy` | concrete registrations and ticks: one splice, a chain, a fork |

The native enumeration is a sequence of names. A native's ordinal is its index, so the
native count N (`Utils.LoadStatesLength`, Utils.cs:61-64) is the length of that sequence.
The game instance is reduced to the five fields the hooks read and write. The game's own
`Update` is a parameter `Host -> Host`, one per tick. Generators are opaque handler names, each marked with whether it binds as an `Action`. A tick's effect
on the outside world is its trace: the list of `Generate` calls it made, each with the
handler that ran, or `None` where only an error was logged.

Behaviour of the code worth knowing:

- The prefix does not decrement the load cursor.
- There is no `original` resume field. The prefix rewinds the game to the `after` step of
  the entry it found.
- The postfix has no guards of its own (`TickDetoursWithoutGuards`).
- The prefix's cursor bound is the native count, not native plus custom.
- When a registration lookup fails, the steps registered before the failing declaration
  stay in both lists.
- Two steps spliced after the same step (a fork) are not rejected. The postfix detours to
  the first one, but the step map keeps the later one, so only the later one is generated
  and the first stays pending (`Scenarios.ForkSecondTick`).

## Model

| member | source | states |
|---|---|---|
| Lists.FindFirst | Plugin.cs:218 | `List.Find`: the index returned satisfies the predicate and no earlier element does; `None` exactly when no element does |
| Lists.RemoveValue | Plugin.cs:228 | `List.Remove` leaves a list without the value unchanged and otherwise removes exactly one element |
| Lists.RemoveValueAt | Plugin.cs:228 | `Remove` drops the first occurrence: the list closes up around that position |
| Lists.Filter | Plugin.cs:134-135 | `Where(...).ToList()` keeps exactly the elements satisfying the predicate, all taken from the input |
| Lists.FilterCons | Plugin.cs:134-135 | the filter of a list with a known head, counted as a multiset |
| Lists.FilterPartition | Plugin.cs:134-135 | filtering by a predicate and by its negation splits the list: the two parts together are a permutation of it |
| Steps.Wrap32 | Step.cs:19-22 | unchecked `int` addition: the result is congruent to the exact sum modulo 2^32 and equals it when the sum is in range |
| Steps.StepEquals | Step.cs:9-17 | `Step.Equals(obj)`: false unless `obj` is a `Step`, and for a `Step` true exactly when it is the same record |
| Steps.StepHash | Step.cs:19-22 | `Step.GetHashCode`: congruent modulo 2^32 to the name's hash plus the load state's integer value |
| Steps.StepEqualsIsValueEquality | Step.cs:9-17 | `Step.Equals` holds exactly when name and load state agree, i.e. it is record equality |
| Steps.StepNotEqualToOtherKinds | Step.cs:11-14 | a step never equals null or an object of another runtime type |
| Steps.StepEqualsIsEquivalence | Step.cs:9-17 | `Step.Equals` is reflexive, symmetric and transitive |
| Steps.StepHashAgreesWithEquals | Step.cs:19-22 | equal steps have equal hash codes, whatever the string hash is |
| Steps.CustomStepEquals | Step.cs:31-39 | `CustomStep.Equals(obj)`: false unless `obj` is a `CustomStep`, and for one true exactly when it is the same record |
| Steps.CustomStepHash | Step.cs:41-44 | `CustomStep.GetHashCode`: congruent modulo 2^32 to the sum of the name hashes and load states of both component steps |
| Steps.CustomStepEqualsIsValueEquality | Step.cs:31-39 | `CustomStep.Equals` holds exactly when both component steps are equal; never equal to null or a `Step` |
| Steps.CustomStepHashAgreesWithEquals | Step.cs:41-44 | equal custom steps have equal hash codes |
| StepGraph.GetLoadState | Plugin.cs:63-79 | the lookup fails exactly when no custom step and no native has the name, and then reports that name |
| StepGraph.GetLoadStateFirstCustom | Plugin.cs:65-69 | the first custom step with the name determines the result, shadowing natives and later custom steps |
| StepGraph.GetLoadStateNative | Plugin.cs:71-74 | with no custom step of that name, a native name resolves to its ordinal in the enumeration |
| StepGraph.RegisterOne | Plugin.cs:95-103 | one declaration fails exactly when its after-name does not resolve, reporting that name; otherwise both lists grow by the same entry, whose step has the declared name and the next ordinal and whose after-step has the declared after-name |
| StepGraph.RegisterOneKeepsWellFormed | Plugin.cs:95-103 | one declaration appends one entry with the next ordinal and the declared names to both lists and keeps the registration invariant |
| StepGraph.RegisterFrom | Plugin.cs:90-105 | registration only appends, to both lists alike, at most one entry per declaration |
| StepGraph.RegisterFromKeepsWellFormed | Plugin.cs:93-104 | every registered entry has ordinal N plus its position, and its after-step is what `GetLoadState` resolved from the entries before it |
| StepGraph.RegisterFromDeclares | Plugin.cs:92-104 | the appended entries carry the leading declarations' names, in order |
| StepGraph.RegisterFromCompletes | Plugin.cs:90-105 | registration reports no error exactly when every declaration produced an entry |
| StepGraph.RegisterFromStopsAtFailure | Plugin.cs:101 | on failure, the error names the after-step of the first declaration not registered, and that name does not resolve against the entries registered before it |
| StepGraph.RegisterCustomStates | Plugin.cs:84-106 | from empty lists: both lists equal, well-formed, following the declarations, ordinals N+k; completes exactly when no lookup fails, otherwise stops at the failing declaration with the partial lists kept |
| StepGraph.AfterPrecedesStep | Plugin.cs:98-101 | every registered after-step has a lower, non-negative ordinal than its step, so the after-relation has no cycle |
| StepGraph.OrdinalsDistinct | Plugin.cs:98 | registered steps have pairwise distinct ordinals |
| StepGraph.ForwardReferenceFails | Plugin.cs:101 | a declaration whose after-name is neither native nor declared earlier aborts registration at or before it |
| Generators.LeadingBindable | Plugin.cs:118-126 | how far the scan gets: every method before that point binds as an `Action`, and the method at it, if any, does not |
| Generators.StoreAll | Plugin.cs:118-126 | storing methods in order leaves exactly their state names as keys |
| Generators.StoreAllLastWins | Plugin.cs:124 | the overwriting store keeps, for a name, the last method carrying it |
| Generators.RegisterStateGenerateMethods | Plugin.cs:111-127 | the keys are exactly the state names of the methods before the first one that does not bind as an `Action`; there is an error exactly when such a method exists, and it names the first one; what was stored before it is kept |
| Generators.LastRegistrationWins | Plugin.cs:124 | a method the scan reaches, whose state name no later reached method reuses, is the handler stored for that name |
| Generators.Generate | Plugin.cs:155-165 | the handler registered under the name runs, and nothing runs exactly when no handler is registered under it |
| Generators.GenerateRunsLastRegistered | Plugin.cs:155-165 | after registration, `Generate` for a name runs the last method the scan stored under that name |
| Generators.GenerateWithoutMethod | Plugin.cs:155-165 | after registration, `Generate` runs nothing exactly when no method reached by the scan carries the name; when every method binds, exactly when no method carries it |
| Generators.ValidateStateGenerateMethods | Plugin.cs:132-135 | `found` holds steps with a generator and `notFound` steps without one; together they are a permutation of the custom steps |
| Generators.ValidationDisjoint | Plugin.cs:134-135 | no step is both found and not found |
| Generators.MissingGeneratorWarning | Plugin.cs:136 | the validation warns exactly when the not-found part is non-empty |
| Generators.WarningIffMissing | Plugin.cs:136-140 | the warning is raised exactly when some custom step's `Generate` call would find no handler |
| Chains.BuildStepMap | Plugin.cs:171-176 | the map's keys are exactly the after-steps, each maps to a step spliced after it, and the last entry's mapping is kept |
| Chains.LaterEntryWins | Plugin.cs:175 | for an after-step shared by several entries, the last entry's step is the one kept |
| Chains.StepMapAscends | Plugin.cs:171-176 | a map built from registered entries maps every key to a higher ordinal |
| Chains.Walk | Plugin.cs:179-189 | the walk starts at the image of the start, follows the map one step at a time, stops at the first non-key, and its ordinals rise strictly |
| Chains.FindConsecutiveSteps | Plugin.cs:167-190 | every step returned is a step of some entry, in strictly rising ordinal order, and the result is the walk along the step map from the starting step |
| Chains.WalkIsUnique | Plugin.cs:180-187 | any sequence that starts at the image, follows the map and stops at a non-key is the walk |
| Interception.RemoveByOrdinal | Plugin.cs:228 | with no entry of that ordinal nothing changes; otherwise exactly the first such entry is removed |
| Interception.RemoveAtDistinct | Plugin.cs:228 | with distinct ordinals, closing up at one position keeps them distinct and loses exactly the entries of that ordinal |
| Interception.RemoveByOrdinalDistinct | Plugin.cs:228 | with distinct ordinals the removal keeps them distinct and drops exactly the entry of the ordinal |
| Interception.RemoveByOrdinalShrinks | Plugin.cs:228 | removal only drops entries |
| Interception.WithoutOrdinals | Plugin.cs:223-229 | the pending list with the generated ordinals taken out, the rest in their original order; taking out never lengthens the list |
| Interception.WithoutIsFilter | Plugin.cs:223-229 | taking out ordinals keeps exactly the entries whose ordinal is outside the set, in order, as a filter over the list |
| Interception.WithoutMembers | Plugin.cs:223-229 | an entry remains exactly when it was pending and its ordinal was not generated |
| Interception.WithoutNothing | Plugin.cs:223-229 | when no entry has a generated ordinal, the pending list is unchanged |
| Interception.WithoutConcat | Plugin.cs:223-229 | taking out ordinals works piecewise over a split list |
| Interception.WithoutTwice | Plugin.cs:223-229 | taking out one set of ordinals and then another is taking out their union |
| Interception.WithoutOnly | Plugin.cs:228 | when only one entry has an ordinal, taking out that ordinal removes just that entry and keeps the others in place |
| Interception.RemoveByOrdinalInOrder | Plugin.cs:228 | with distinct ordinals, `List.Remove` of the entry found for an ordinal is taking out that ordinal, the rest in order |
| Interception.ChainStepPending | Plugin.cs:223-229 | one round of the injection loop: if the rest of the chain only removes pending entries and, with distinct ordinals, leaves the list with its ordinals taken out in order, then so does the whole chain |
| Interception.GenerateChain | Plugin.cs:223-229 | one `Generate` call per chain step, in order, with the handler registered for its name; with distinct ordinals the pending list loses exactly the generated entries and the rest keep their order |
| Interception.Inject | Plugin.cs:221-231 | the trace is the chain from the found entry's after-step; the game is rewound to that after-step and nothing else in it changes |
| Interception.InjectUpdatesPending | Plugin.cs:221-229 | an injection generates only pending steps, in rising ordinal order, and with distinct ordinals removes exactly those, leaving the rest in order |
| Interception.Intercepts | Plugin.cs:215-217 | the prefix's three guards: the load cursor is below the native count, a load is active and its task not completed, and generation is on |
| Interception.Prefix | Plugin.cs:205-232 | `__state` is always the incoming load state; outside the guards, or with no pending entry for that state, nothing changes; otherwise the first pending entry for that state is injected |
| Interception.PrefixUpdatesPending | Plugin.cs:205-232 | every prefix call generates only pending steps, in rising order, and removes exactly those, leaving the rest in order |
| Interception.Postfix | Plugin.cs:240-248 | only the load state can change; it becomes the step of the first pending entry spliced after `__state`, and stays when there is none |
| Interception.Tick | Plugin.cs:205-248 | a tick only removes pending entries and keeps them backward-pointing; with distinct ordinals it consumes exactly the steps it generates and the rest keep their order; outside the guards it generates nothing and only the postfix acts |
| Interception.ConsumesCompose | Plugin.cs:223-229 | consumption over consecutive stretches of ticks composes |
| Interception.ConsumesComposeIfDistinct | Plugin.cs:205-248 | when the first pending list has distinct ordinals and both stretches consume, so does their concatenation |
| Interception.Run | Plugin.cs:205-248 | over any number of ticks, each with its own host `Update`, with distinct ordinals, each step is generated at most once and only while pending, and the list left is the original with exactly the generated steps taken out, in order; with generation off and no tick's `Update` switching it on, nothing is generated or removed |
| Plugin.RegisteredListIsSpliceable | Plugin.cs:84-106 | the pending list registration leaves, complete or cut short, has only backward-pointing entries and distinct ordinals |
| Plugin.EachStepGeneratedAtMostOnce | Plugin.cs:84-248 | from the list startup registers and the generators the scan stored, over any number of ticks, each with its own host `Update`, every generator call is for a registered step, none is repeated, and the list left is the registered one with exactly the generated steps taken out, in order |
| Interception.DisabledTick | Plugin.cs:217 | a tick with generation off generates nothing and removes nothing |
| Interception.TickDetoursWithoutGuards | Plugin.cs:240-248 | even when the prefix's guards stop it, the postfix redirects the game to the first step spliced after the starting state |
| Scenarios.SingleRegistration | Plugin.cs:84-106 | `X` after `A` gets ordinal 3 with natives `A`, `B`, `C` |
| Scenarios.DetourFromStart | Plugin.cs:240-248 | on a first tick at `A` with nothing pending for `A`, the game is redirected to the first step spliced after `A` |
| Scenarios.SingleFirstTick | Plugin.cs:240-248 | the first tick at `A` detours to `X` |
| Scenarios.SingleChain | Plugin.cs:167-190 | the chain from `A` is `X` |
| Scenarios.SinglePrefix | Plugin.cs:205-232 | the prefix at `X` generates `X`, empties the pending list, and rewinds to `A` |
| Scenarios.SingleSecondTick | Plugin.cs:205-248 | after the second tick, `X` has been generated once, nothing is pending, and the game is at `B` |
| Scenarios.ChainRegistration | Plugin.cs:84-106 | `Y` after `X` resolves its after-step to the custom step `X` |
| Scenarios.ChainFirstTick | Plugin.cs:240-248 | the first tick detours to `X` |
| Scenarios.ChainStepMap | Plugin.cs:171-176 | the step map is `A` to `X` and `X` to `Y` |
| Scenarios.ChainChain | Plugin.cs:179-189 | the chain from `A` is `X`, `Y` |
| Scenarios.ChainGenerate | Plugin.cs:223-229 | both generators run in order and the pending list empties |
| Scenarios.ChainInject | Plugin.cs:221-231 | injecting `X` generates the chain `X`, `Y` and rewinds to `A` |
| Scenarios.ChainPrefix | Plugin.cs:205-232 | the prefix at `X` generates the whole chain in one tick |
| Scenarios.ChainSecondTick | Plugin.cs:205-248 | after the chain, the game is at `B` with nothing pending |
| Scenarios.ForkRegistration | Plugin.cs:84-106 | two steps after `A` are both accepted |
| Scenarios.ForkFirstTick | Plugin.cs:240-248 | the postfix detours to the first step after `A` |
| Scenarios.ForkChain | Plugin.cs:171-189 | the step map keeps only the later step after `A`, so the chain is `Y` alone |
| Scenarios.ForkPrefix | Plugin.cs:205-232 | the prefix at `X` generates `Y` only and `X` stays pending |
| Scenarios.ForkSecondTick | Plugin.cs:205-248 | after the second tick `X` is still pending and the game has moved past `A` |
| Scenarios.UnknownAfterStep | Plugin.cs:101 | a declaration after an unknown name stops registration and keeps what came before |
| Scenarios.UnbindableMethodStopsScan | Plugin.cs:111-127 | a method that does not bind as an `Action` stops the scan with an error naming its state; the method stored before it stays, and a later one is never reached |
| Scenarios.MissingGenerator | Plugin.cs:155-165 | a name with a generator runs it; a name without one runs nothing |

## Left out

- The IL2CPP field bridge (Utils.cs) that reads and writes the game's fields is not modelled. The five fields are plain record fields here.
- Reflection-based discovery of `[CustomState]` classes and `[GenerateState]` methods is not modelled. The discovered declarations and methods are ordered input sequences, in discovery order. Whether a tagged method binds as an `Action` (static, no parameters, void) is a flag on the method rather than read from its signature.
- Plugin lifecycle is not modelled: `Load`, the single-instance check, Harmony patching, and the `Start` sequencing.
- Logging is not modelled. The only observable effect of a missing generator is the `None` entry in a tick's trace.
- Generator bodies are not modelled: what they do, how long they block, and the exceptions they throw. A generator that throws would abort the prefix mid-chain. The model assumes every generator returns.
- `loadFullCityDataTask` is reduced to one boolean, "the task exists and has completed".
- Null step names and null list entries are not modelled.
- GetLoadState: `Enum.Parse` also accepts numeric strings and comma-separated flag names. The model resolves only exact native names. With a numeric after-name a registered entry can point forward or to itself (with three native states, `[CustomState("3", "3")]` is step 3 after step 3), and the source may then loop forever in `FindConsecutiveSteps`.
- GetLoadState: the model assumes the native enumeration values are contiguous and zero-based, so a native's value is its index.
- RegisterCustomStates: the 32-bit range of load-state ordinals is not modelled. Ordinals are unbounded integers, since they would only wrap after about 2^31 declarations.
- Walk: requires an ascending step map. The source has no such precondition, but on a cyclic map its `while` loop never ends. Registration in this model (exact native names) guarantees the map is ascending (`AfterPrecedesStep`, `StepMapAscends`).
- FindConsecutiveSteps: requires backward-pointing entries (`EntriesAscend`). The reason is the same as for Walk.
- Inject: requires backward-pointing pending entries, for the same reason.
- Prefix: requires backward-pointing pending entries, for the same reason. A pending list holds only registered entries, so registration in this model (exact native names) guarantees this.
- Tick: requires backward-pointing pending entries, for the same reason.
- Run: requires backward-pointing pending entries, for the same reason.
- The game's own `Update` is a parameter, one per tick, because its code is not part of this model and it may depend on state outside the modelled fields (a background load task completing, for one). The scenarios use a simple "advance by one" update.
- Steps.StepHash: the .NET string hash is a parameter, because it is randomised per process.
