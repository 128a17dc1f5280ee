# Module registry model

A Dafny model of the process-wide module registry of the `mod` package
(`mods.go`). The registry is a table from a module name to a module. It has
three operations:

- `Register(name, modular)` adds an entry. It panics when the module is nil
  or the name is already taken.
- `LoadModules()` copies every stored module into a new slice.
- `Load(name)` looks up one module. It returns an "unknown module" error when
  the name is absent.

How the model is laid out:

- `wrappers.dfy` holds the `Option`, `Result` and `Outcome` types.
- `mods.dfy` (module `Mods`) holds the table type, the specification
  functions `RegisterSpec`, `LoadSpec`, `Step` and `Run`, and the lemmas about
  them.
- The package-level map `mods` becomes the field `mods` of the class
  `Mods.Registry`. Its methods `Register`, `LoadModules` and `Load` are
  proved against the specification functions.
- A module (a value of the Go interface `Modular`) is an `object` reference,
  so identity is kept. A nil module is `null`.
- A panic is the outcome `Fail(NilModule)` or `Fail(DuplicateName(name))`,
  and the table is left exactly as it was. A Go caller can recover the panic,
  and the deferred unlock frees the lock, so the registry stays usable. `Run`
  therefore carries on with the calls after a failed one, and
  `Registry.Drive`, which makes the calls on a registry object, ends where
  `Run` says.
- `LoadModules` picks the keys with `:|`, so the order is unspecified, as
  Go's map iteration order is. Its result is described by multiplicities:
  each module occurs in the slice once for every key that maps to it
  (`IsValuesMultiset`).

## Model

| member | source | states |
|---|---|---|
| Mods.Registry.constructor | mods.go:19-22 | the registry starts with an empty table |
| Mods.Registry.Register | mods.go:24-34 | a nil module fails first, a name already present fails next, and either failure leaves the table unchanged; otherwise the table becomes the old table with `name ↦ modular` added; success happens exactly when the module is non-nil and the name is new |
| Mods.Registry.LoadModules | mods.go:37-45 | the returned sequence has one element per table entry, and each module occurs in it as many times as there are keys mapping to it; the method has no `modifies` clause, so the table is not changed |
| Mods.Registry.Load | mods.go:48-56 | the error is absent exactly when the name is in the table; then the module is the stored one; otherwise the module is nil and the error is `UnknownModule(name)`; the table is not changed; the result agrees with `LoadSpec` |
| Mods.RegisterSpec | mods.go:24-34 | a registration succeeds exactly when the module is non-nil and the name is new; on success the new table maps `name` to the module |
| Mods.LoadSpec | mods.go:48-56 | a lookup succeeds exactly when the name is in the table, and then yields the stored module |
| Mods.Step | mods.go:24-56 | a `LoadModules` or `Load` call always succeeds and leaves the table as it was; only `Register` can change the table or fail |
| Mods.Run | mods.go:24-56 | the table after any sequence of calls, with a failed call changing nothing; its key set contains every starting key |
| Mods.RunContinuesAfterPanic | mods.go:26-32 | a call that panics leaves the table as it was, and the calls after it still run |
| Mods.RunSizeBound | mods.go:24-56 | a sequence of calls adds at most one entry per call |
| Mods.RunNonNilKeys | mods.go:24-34 | when no registration passes a nil module, the key set after the run is the starting key set plus every name registered, since a duplicate name is already a key |
| Mods.Registry.Drive | mods.go:24-56 | making the calls one by one on a registry, failed registrations included, leaves its table equal to `Run` of the old table and the calls |
| Mods.RegisterNilFails | mods.go:27-29 | registering a nil module always fails with `NilModule` and yields no new table |
| Mods.RegisterDuplicateFails | mods.go:30-32 | registering a name that is already present fails, and with `DuplicateName(name)` when the module is non-nil |
| Mods.RegisterInserts | mods.go:33 | a non-nil module under a new name succeeds; the new key set is the old one plus `name`, the size grows by exactly one, `name` maps to the module, and every old entry is kept |
| Mods.RegisterThenLoad | mods.go:33 | after a successful registration, `Load` of that name returns exactly the registered module |
| Mods.LoadAbsentFails | mods.go:52-53 | `Load` of an absent name returns the error `UnknownModule(name)` and no module |
| Mods.StepExtends | mods.go:24-56 | no single call removes or overwrites an entry |
| Mods.RunExtends | mods.go:24-56 | across any sequence of calls, including failed ones, every existing entry is still present with the same module |
| Mods.RunFreshRegistrationsSize | mods.go:24-34 | registering N distinct new names with non-nil modules grows the table by exactly N |
| Mods.RunFreshRegistrationsKeys | mods.go:24-34 | after those N registrations, the key set is the old key set plus exactly the registered names |
| Mods.RunFreshRegistrationsValues | mods.go:24-34 | after those N registrations, each registered name maps to the module it was registered with |
| Mods.FreshRegistrationsThenLoadModules | mods.go:37-45 | after N distinct registrations into an empty table, a `LoadModules` result has N elements, holds every registered module, and holds nothing else |
| Mods.LoadModulesMembers | mods.go:40-41 | a module is in a `LoadModules` result exactly when some key of the table maps to it |
| Mods.LoadModulesTwice | mods.go:37-45 | two `LoadModules` calls in a row return the same multiset of modules, and both are as long as the table |
| Mods.OccurrencesRemove | mods.go:40-41 | taking one key out of the table removes one occurrence of its module and changes no other module's count; this is the per-step fact for the copying loop |
| Mods.OccurrencesPositive | mods.go:40-41 | a module has a non-zero count exactly when some key maps to it |
| Mods.ValuesMultisetUnique | mods.go:37-45 | the multiset of the table's values is determined by the table, so any two `LoadModules` results of one table are equal as multisets |

## Left out

- The `sync.Mutex` (`modsMu`) and its locking. Each call is modelled as one atomic step, which is what the lock guarantees. Concurrent callers are not modelled.
- The `Modular` lifecycle methods `AutoMigrate`, `Init`, `Release` and `RegisterRouters`. They belong to external implementations, so a module is an opaque object reference.
- The gin router group, `context.Context` and `Config`. These are external types. `Config` is not defined in `mods.go`.
- The text of the panic and error messages, which is `fmt` formatting. The model keeps only the kind of failure and the name involved.
- A Go interface holding a typed nil pointer compares unequal to `nil`. The model has only one kind of nil, `null`.
- The Go panic itself, and a process abort when no caller recovers it. `Register` returns a failure outcome instead, with the table unchanged, and the calls after it go on. This matches a caller that recovers the panic. The run up to an unrecovered panic is a prefix of the calls, so `Run` of that prefix covers it.
- Mods.Registry.LoadModules: states no order for the result, because Go's map iteration order is unspecified. It also does not distinguish the nil slice Go returns for an empty table from an empty non-nil slice.
