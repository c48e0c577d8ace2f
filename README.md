# ServiceLocator: a verified model of the service registry

This project models the service registry of a small game-engine runtime, `ServiceLocator`.
The registry keeps an ordered list of `(priority, service)` records. Services are objects that
may implement any of six lifecycle interfaces: `IInitializable`, `IDestroyable`, `IAppPause`,
`ITickable`, `ITickableUnscaled` and `ITickableFixed`. The registry does the following:

- It registers a service at the end of the list, and rejects a reference it already holds.
- It unregisters the first record holding a given reference.
- It unregisters every service of a type.
- It looks up the first service of a type.
- On start-up, it sorts the list by priority and calls `Init` in the new order.
- It calls `Destroy` and then empties the list.
- Each frame, it fans out the pause, tick and fixed-tick hooks in list order.

The model is written in Dafny, in five modules:

- `Services` (services.dfy): services, their types, the hooks and the calls.
  - A service is a Dafny class, so identity is reference identity, as in the source.
  - Its constant `types` set stands for every type its run-time class is assignable to.
  - Registration requires `IService` in that set, because the source's parameter is typed `IService`.
  - A type test (`is T`, `as T`, `IsAssignableFrom`) becomes membership of a `TypeTag` in that set.
  - A C# `float` is carried as its 32-bit pattern and never interpreted.
- `Registry` (registry.dfy): the list as a value.
  - It defines what each operation does to the list: `IndexOf`, `RemoveFirst`, `Select`, `FirstOfType`.
  - It defines which calls one pass over the list makes: `CallsOn`, `FanOut`.
  - It holds the lemmas about these: the no-duplicate invariant, order preservation, "all and only", and "exactly once per capable service, in list order".
- `Ordering` (ordering.dfy): the comparison `InitServices` sorts with, and the sort itself.
- `Locator` (locator.dfy): the class `ServiceLocator`.
  - The field `services: seq<Entry>` is changed in place by its methods.
  - A ghost field `Trace: seq<Call>` records every hook the registry calls, in order.
  - Lookup and the passes are loops over the list, as in the source, proved against the `Registry` functions.
- `Scenarios` (scenarios.dfy): client code that uses only the contracts.
  - Double registration.
  - Destroy, then register again.
  - Register, then unregister.
  - A priority/Init/Tick scenario with three services.
  - A pause/resume scenario.

The object invariant `Valid()` says that no two records hold the same reference. The
constructor establishes it and every method that changes the list preserves it.

## Model

| member | source | states |
|---|---|---|
| `Locator.ServiceLocator.constructor` | Runtime/ServiceLocator.cs:37 | the registry starts with an empty list and no calls made |
| `Locator.ServiceLocator.RegisterService` | Runtime/ServiceLocator.cs:39-51 | for a service of type `IService` (the parameter's type): fails with `AlreadyRegistered` exactly when the list already holds the reference, and then leaves the list unchanged; otherwise appends exactly `(priority, service)` after the unchanged old records; keeps the no-duplicate invariant; calls no hook |
| `Locator.ServiceLocator.UnregisterService` | Runtime/ServiceLocator.cs:53-63 | the new list is the old one without its first record holding the reference (unchanged if none); afterwards the reference is not held; keeps the invariant |
| `Locator.ServiceLocator.UnregisterServicesOfType` | Runtime/ServiceLocator.cs:65-68 | the new list is the old records whose service is not of the type, in their old order; keeps the invariant |
| `Locator.ServiceLocator.GetService` | Runtime/ServiceLocator.cs:70-81 | returns the lowest-index service of the type, or null when none is; changes nothing |
| `Locator.ServiceLocator.InitServices` | Runtime/ServiceLocator.cs:83-95 | the new list is a permutation of the old one, sorted non-decreasing by priority; the trace gains exactly the Init pass over the new list; keeps the invariant |
| `Locator.ServiceLocator.DestroyServices` | Runtime/ServiceLocator.cs:97-108 | the trace gains exactly the Destroy pass over the old list, in its order; the list is then empty |
| `Locator.ServiceLocator.OnAppPauseServices` | Runtime/ServiceLocator.cs:110-120 | the list is unchanged; the trace gains exactly the AppPause pass, with the given flag, over the list |
| `Locator.ServiceLocator.TickServices` | Runtime/ServiceLocator.cs:122-138 | the list is unchanged; the trace gains exactly the pass of `Tick(deltaTime)` then `TickUnscaled(unscaledDeltaTime)` over the list |
| `Locator.ServiceLocator.TickFixedServices` | Runtime/ServiceLocator.cs:140-150 | the list is unchanged; the trace gains exactly the TickFixed pass, with the given argument, over the list |
| `Registry.RemoveFirst` | Runtime/ServiceLocator.cs:55-62 | the new list of `UnregisterService`: one record shorter exactly when the reference is held, otherwise the same length; the records before the first one holding the reference are kept in place |
| `Registry.CallsOn` | Runtime/ServiceLocator.cs:89-148 | the calls one pass makes on one service (the `as` tests of each pass): no more calls than the pass has hooks; which hooks it selects, and in what order, is stated by `Registry.CallsOnOnlyCapable` and `Registry.OnlyCallsOn` |
| `Registry.FanOut` | Runtime/ServiceLocator.cs:87-150 | the calls one pass makes over the list, record by record in list order; it has no contract of its own, and the `Registry.FanOut…` lemmas below state what it promises |
| `Registry.IndexOf` | Runtime/ServiceLocator.cs:55-62 | the scan by reference stops at the first record holding the service; it reaches the end exactly when no record holds it |
| `Registry.FirstOfType` | Runtime/ServiceLocator.cs:72-80 | null exactly when no record's service is of the type; otherwise the service of a record of the type with no record of the type before it |
| `Registry.Select` | Runtime/ServiceLocator.cs:67 | the records kept are all and only the records whose service is (or is not) of the type |
| `Registry.AppendKeepsNoDuplicates` | Runtime/ServiceLocator.cs:41-50 | appending a record for a reference the list does not hold keeps the list free of duplicates |
| `Registry.RemoveFirstAbsent` | Runtime/ServiceLocator.cs:53-63 | unregistering a reference the list does not hold changes nothing |
| `Registry.RemoveFirstPresent` | Runtime/ServiceLocator.cs:55-60 | unregistering a held reference removes exactly one record, the first one holding it: one fewer record, same records otherwise |
| `Registry.RemoveFirstKeepsOrder` | Runtime/ServiceLocator.cs:59 | the records left after unregistering are a subsequence of the old list |
| `Registry.RemoveFirstNoDuplicates` | Runtime/ServiceLocator.cs:53-63 | on a list without duplicates, unregistering keeps it without duplicates, leaves the reference unheld and loses no record of another service |
| `Registry.RemoveFirstUndoesAppend` | Runtime/ServiceLocator.cs:39-63 | unregistering a service right after registering it restores the old list |
| `Registry.SelectSubsequence` | Runtime/ServiceLocator.cs:67 | the records kept by a removal by type are a subsequence of the old list |
| `Registry.SelectPartition` | Runtime/ServiceLocator.cs:65-68 | the records of the type and the others together are exactly the old records |
| `Registry.RemoveAllOfTypeSpec` | Runtime/ServiceLocator.cs:65-68 | after removal by type, the survivors are all and only the records not of the type, in order and without duplicates, and a lookup of the type finds nothing |
| `Registry.SubsequenceNoDuplicates` | Runtime/ServiceLocator.cs:59-67 | leaving records out never creates a duplicate |
| `Registry.NoDuplicatesPermutation` | Runtime/ServiceLocator.cs:85 | reordering the records, as the sort does, never creates a duplicate |
| `Registry.SubsequenceSorted` | Runtime/ServiceLocator.cs:85-94 | the records a pass selects from a sorted list are sorted |
| `Registry.FanOutAppend` | Runtime/ServiceLocator.cs:87-94 | a pass visits the records one after another: over two lists in a row it makes the first list's calls, then the second's |
| `Registry.FanOutOnlyCapable` | Runtime/ServiceLocator.cs:87-150 | a pass calls only hooks of that pass, only on held services, and only on services that implement the hook's interface |
| `Registry.FanOutCallsEachCapableOnce` | Runtime/ServiceLocator.cs:87-150 | one pass calls each of its hooks exactly once on each record whose service implements it, in list order, with the pass's argument |
| `Registry.FanOutCallsPerService` | Runtime/ServiceLocator.cs:110-150 | on a list without duplicates, a held service gets exactly the hooks of the pass it implements, in the pass's order; an unheld one gets none |
| `Registry.TickBeforeTickUnscaled` | Runtime/ServiceLocator.cs:124-137 | in a tick pass a service gets `Tick` first, if tickable, and then `TickUnscaled`, if unscaled-tickable |
| `Registry.InitPassInPriorityOrder` | Runtime/ServiceLocator.cs:83-95 | on a sorted list, Init reaches the initializable services exactly once each, in non-decreasing order of priority |
| `Ordering.Wrap32` | Runtime/ServiceLocator.cs:85 | C#'s unchecked 32-bit result: congruent to the exact value modulo 2^32, and equal to it when it fits |
| `Ordering.SubtractCompare` | Runtime/ServiceLocator.cs:85 | the comparison as written: the difference of the two priorities when it fits in 32 bits, and otherwise the value congruent to it modulo 2^32 (the wrapped difference) |
| `Ordering.ComparePriority` | Runtime/ServiceLocator.cs:85 | the intended comparison: negative, zero or positive exactly as the first priority is below, equal to or above the second |
| `Ordering.ComparePriorityIsTotalPreorder` | Runtime/ServiceLocator.cs:85 | the intended comparison is reflexive, total and transitive, so sorting by it is well defined |
| `Ordering.SubtractCompareAgreesWithinRange` | Runtime/ServiceLocator.cs:85 | for priorities less than 2^31 apart, the subtraction does not wrap and agrees in sign with the intended comparison |
| `Ordering.SubtractCompareMisorders` | Runtime/ServiceLocator.cs:85 | the subtraction as written ranks int.MinValue above 1 |
| `Ordering.SubtractCompareNotTransitive` | Runtime/ServiceLocator.cs:85 | the subtraction as written is not transitive (int.MinValue < 0 < 1 but int.MinValue > 1) |
| `Ordering.InsertByPriority` | Runtime/ServiceLocator.cs:85 | inserting into a sorted list gives a sorted list with exactly one more record |
| `Ordering.SortByPriority` | Runtime/ServiceLocator.cs:85 | the result is sorted non-decreasing by priority and is a permutation of the input; nothing is promised about records of equal priority |
| `Scenarios.RegisterTwice` | Runtime/ServiceLocator.cs:39-51 | registering the same reference twice: the first succeeds, the second fails and the list keeps the single record |
| `Scenarios.DestroyThenRegisterAgain` | Runtime/ServiceLocator.cs:97-108 | after destroy, a lookup of any type finds nothing and registering any service succeeds, leaving just its record |
| `Scenarios.RegisterThenUnregister` | Runtime/ServiceLocator.cs:39-63 | register followed by unregister of the same service restores the list when the register succeeded |
| `Scenarios.LowestFirst` | Runtime/ServiceLocator.cs:85 | a sorted permutation of three records starts with the one whose priority is strictly lowest |
| `Scenarios.PauseScenario` | Runtime/ServiceLocator.cs:110-120 | a registry holding one pause-aware service, told of a pause and then of a resume: the list keeps its one record and the service gets exactly `OnAppPause(true)` then `OnAppPause(false)` |
| `Scenarios.PriorityScenario` | Runtime/ServiceLocator.cs:39-138 | three services registered as a (5, tickable), b (1, tickable, initializable), c (5, initializable), then started and ticked: b comes first, and the calls are exactly Init on b, Init on c, Tick on b, Tick on a |
| `Scenarios.StartThenTick` | Runtime/ServiceLocator.cs:83-138 | the same three records started and ticked: b first, a and c in either order, and exactly those four calls |
| `Scenarios.ScenarioCalls` | Runtime/ServiceLocator.cs:83-138 | with a (5, tickable), b (1, tickable, initializable) and c (5, initializable) sorted in either tie order, Init calls b then c, and a tick calls b then a |

## Left out

- Runtime/Bootstrapper.cs is not part of this model. It is an engine component that only forwards the engine's start, destroy, pause, update and fixed-update callbacks, with the engine's clock values, to the methods above.
- Runtime/Singleton.cs is not part of this model. It is a process-wide lazily created instance. The model uses one `ServiceLocator` object that the caller creates.
- The bodies of the hooks are left out, because they are foreign code. The `Trace` records that a hook was called, with which argument, and in which order.
- Every hook is assumed to return normally. In the source, a hook that throws aborts its pass at that record. In `DestroyServices` that also skips the final `Clear` (Runtime/ServiceLocator.cs:107), so the list keeps its records.
- The model cannot express a hook that registers or unregisters during a pass. In the source, a `foreach` pass would then throw, and an indexed pass would skip or repeat records.
- Null services are excluded by the type: `Service` is a non-null reference. In the source a null service can be registered once. Registering it again then fails with a null dereference while building the exception text (Runtime/ServiceLocator.cs:46). A lookup by type fails the same way only when its scan reaches the null record before any match (:74). `UnregisterService<T>` and the passes' `as` casts (:67, :89) skip a null record without dereferencing it.
- The text of the duplicate-registration exception, built from the service's type name, is left out. The failure is the value `AlreadyRegistered(service)`.
- `Locator.ServiceLocator.RegisterService` takes the priority explicitly. The source's default argument of 0 is left to the caller.
- `Locator.ServiceLocator.UnregisterServicesOfType` accepts every type tag. The source's generic constraint `where T : IService` (Runtime/ServiceLocator.cs:65), which rules out the capability interfaces that do not extend `IService`, is not modelled; the model admits a superset of the source's calls.
- `Locator.ServiceLocator.GetService` returns the service reference, or null. The cast to `T` and `default(T)` for a value type `T` are left out.
- Floating-point values are left out: the deltas are only passed on, as opaque 32-bit patterns.
- The CLR type hierarchy is left out. Each service carries the set of types its class is assignable to. Both `is T` and `IsAssignableFrom` are membership in that set.
- `Ordering.SortByPriority` is an insertion sort standing in for the library sort (an introsort, which is not stable). Only what the library promises is stated: the result is sorted and is a permutation of the input. Tie order is not promised, because `List.Sort` is not stable.
- `Locator.ServiceLocator.InitServices` sorts with the intended comparison, not the overflowing subtraction. For priorities less than 2^31 apart the two agree (`Ordering.SubtractCompareAgreesWithinRange`). For priorities farther apart, see Findings.
- The hook trace is ghost state, so the passes have no compiled effect beyond reading the list.

## Findings

| source | as written | input that shows it | evidently intended | confidence | as-written member | corrected member |
|---|---|---|---|---|---|---|
| Runtime/ServiceLocator.cs:85 | The start-up sort compares two records by subtracting their priorities in unchecked 32-bit arithmetic, so the difference wraps for priorities 2^31 or more apart. | Priorities int.MinValue and 1: the difference wraps to int.MaxValue, so int.MinValue is ranked above 1. With 0 added, the comparison ranks int.MinValue < 0 < 1 but int.MinValue > 1, so it is not transitive: the sort may misorder the list or reject the comparison. | Sort ascending by priority for every pair of 32-bit priorities (a three-way comparison of the two values). | not executed; high (the wrap-around follows from C#'s default unchecked arithmetic) | `Ordering.SubtractCompareNotTransitive` | `Ordering.ComparePriority` |
