/**
 * The process-wide module registry: a table from module name to module.
 *
 * A module is any object reference (Go's `Modular` interface value; its
 * lifecycle methods are not modelled). A nil module is `null`. The table
 * itself holds only non-nil modules.
 */
module Mods {
  import opened Wrappers

  /** The registry table: name |-> module. */
  type Table = map<string, object>

  /** The two programming errors `Register` aborts the process for. */
  datatype Panic =
    | NilModule                   // the module passed is nil
    | DuplicateName(name: string) // the name is already registered

  /** The recoverable error `Load` returns for a missing name. */
  datatype LoadError = UnknownModule(name: string)

  // ---------------------------------------------------------------------
  // Specification functions over the table
  // ---------------------------------------------------------------------

  /** The effect of `Register(name, modular)` on `table`: the nil check comes
      first, then the duplicate check, and only then the insertion. */
  function RegisterSpec(table: Table, name: string, modular: object?): (r: Result<Table, Panic>)
    ensures r.Success? <==> modular != null && name !in table
    ensures r.Success? ==> name in r.value && r.value[name] == modular
  {
    if modular == null then Failure(NilModule)
    else if name in table then Failure(DuplicateName(name))
    else
      var t := table[name := modular];
      assert t.Keys == table.Keys + {name};
      Success(t)
  }

  /** What `Load(name)` returns for `table`. */
  function LoadSpec(table: Table, name: string): (r: Result<object, LoadError>)
    ensures r.Success? <==> name in table
    ensures r.Success? ==> r.value == table[name]
  {
    if name in table then Success(table[name]) else Failure(UnknownModule(name))
  }

  /** The number of keys of `m` that map to `v`: the multiplicity of `v`
      among the values of `m`. */
  ghost function Occurrences<K, V>(m: map<K, V>, v: V): nat
  {
    |set k | k in m && m[k] == v|
  }

  /** `ms` is the multiset of the values of `m`: each value occurs once per
      key that maps to it (a value outside both has multiplicity zero on
      both sides, see `OccurrencesPositive`). */
  ghost predicate IsValuesMultiset<K, V>(ms: multiset<V>, m: map<K, V>)
  {
    && (forall v :: v in ms ==> ms[v] == Occurrences(m, v))
    && (forall v :: v in m.Values ==> ms[v] == Occurrences(m, v))
  }

  /** Removing a key from a map shrinks it by one. */
  lemma RemoveKeySize<K, V>(m: map<K, V>, k: K)
    requires k in m
    ensures |m - {k}| == |m| - 1
  {
    assert (m - {k}).Keys == m.Keys - {k};
  }

  /** Taking key `k` out of `m` takes one occurrence of `m[k]` away and
      leaves the other values' multiplicities alone. */
  lemma OccurrencesRemove<K, V>(m: map<K, V>, k: K, v: V)
    requires k in m
    ensures Occurrences(m, v) == Occurrences(m - {k}, v) + (if m[k] == v then 1 else 0)
  {
    var all := set j | j in m && m[j] == v;
    var rest := set j | j in m - {k} && (m - {k})[j] == v;
    if m[k] == v {
      assert all == rest + {k};
    } else {
      assert all == rest;
    }
  }

  /** A value has a positive multiplicity exactly when some key maps to it. */
  lemma OccurrencesPositive<K, V>(m: map<K, V>, v: V)
    ensures Occurrences(m, v) > 0 <==> v in m.Values
  {
    var s := set k | k in m && m[k] == v;
    if v in m.Values {
      var k :| k in m && m[k] == v;
      assert k in s;
    }
  }

  /** Two multisets that are both the multiset of the values of the same
      table are equal. */
  lemma ValuesMultisetUnique<K, V>(a: multiset<V>, b: multiset<V>, m: map<K, V>)
    requires IsValuesMultiset(a, m) && IsValuesMultiset(b, m)
    ensures a == b
  {
    forall v ensures a[v] == b[v] {
      OccurrencesPositive(m, v);
    }
  }

  // ---------------------------------------------------------------------
  // Properties of a single Register / Load
  // ---------------------------------------------------------------------

  /** Registering a nil module fails and inserts nothing. */
  lemma RegisterNilFails(table: Table, name: string)
    ensures RegisterSpec(table, name, null) == Failure(NilModule)
  {
  }

  /** Registering a name already present fails, whatever the module. */
  lemma RegisterDuplicateFails(table: Table, name: string, modular: object?)
    requires name in table
    ensures RegisterSpec(table, name, modular).Failure?
    ensures modular != null ==> RegisterSpec(table, name, modular) == Failure(DuplicateName(name))
  {
  }

  /** A non-nil module under a fresh name is accepted: the new table has
      exactly one more entry, `name |-> modular`, and keeps every old entry. */
  lemma RegisterInserts(table: Table, name: string, modular: object)
    requires name !in table
    ensures RegisterSpec(table, name, modular).Success?
    ensures var t := RegisterSpec(table, name, modular).value;
      && t.Keys == table.Keys + {name}
      && |t| == |table| + 1
      && t[name] == modular
      && forall k :: k in table ==> t[k] == table[k]
  {
    var t := table[name := modular];
    assert t.Keys == table.Keys + {name};
  }

  /** After a successful registration, `Load` of that name yields exactly the
      registered module. */
  lemma RegisterThenLoad(table: Table, name: string, modular: object?)
    requires RegisterSpec(table, name, modular).Success?
    ensures LoadSpec(RegisterSpec(table, name, modular).value, name) == Success(modular)
  {
  }

  /** `Load` of an absent name reports that name as unknown. */
  lemma LoadAbsentFails(table: Table, name: string)
    requires name !in table
    ensures LoadSpec(table, name) == Failure(UnknownModule(name))
  {
  }

  // ---------------------------------------------------------------------
  // Sequences of calls
  // ---------------------------------------------------------------------

  /** One call into the registry. */
  datatype Call =
    | RegisterCall(name: string, modular: object?)
    | LoadModulesCall
    | LoadCall(name: string)

  /** The table after one call; only `Register` can change it or fail, and
      a panic is reported as a failure. */
  function Step(table: Table, call: Call): (r: Result<Table, Panic>)
    ensures !call.RegisterCall? ==> r == Success(table)
  {
    match call
    case RegisterCall(name, modular) => RegisterSpec(table, name, modular)
    case LoadModulesCall => Success(table)
    case LoadCall(_) => Success(table)
  }

  /** The table after one call, whether or not it panics. */
  function After(table: Table, call: Call): Table
  {
    match Step(table, call)
    case Success(t) => t
    case Failure(_) => table
  }

  /** The table after running `calls` in order. A call that panics leaves
      the table as it was, and the calls after it still run, as they do when
      the caller recovers the panic (the deferred unlock frees the lock).
      The key set only grows. */
  function Run(table: Table, calls: seq<Call>): (r: Table)
    ensures table.Keys <= r.Keys
    decreases |calls|
  {
    if calls == [] then table else Run(After(table, calls[0]), calls[1..])
  }

  /** A call that panics changes nothing, and the run carries on with the
      calls after it. */
  lemma RunContinuesAfterPanic(table: Table, calls: seq<Call>)
    requires calls != [] && Step(table, calls[0]).Failure?
    ensures Run(table, calls) == Run(table, calls[1..])
  {
  }

  /** Table `a` is contained in table `b`: every entry of `a` is in `b`. */
  ghost predicate Extends(a: Table, b: Table)
  {
    forall k :: k in a ==> k in b && b[k] == a[k]
  }

  /** No call removes or overwrites an entry. */
  lemma StepExtends(table: Table, call: Call)
    ensures Step(table, call).Success? ==> Extends(table, Step(table, call).value)
  {
  }

  /** Across any sequence of calls, the key set only grows and no
      existing entry changes. */
  lemma {:induction false} RunExtends(table: Table, calls: seq<Call>)
    ensures Extends(table, Run(table, calls))
    decreases |calls|
  {
    if calls != [] {
      match Step(table, calls[0])
      case Success(t) =>
        StepExtends(table, calls[0]);
        RunExtends(t, calls[1..]);
      case Failure(_) =>
        RunExtends(table, calls[1..]);
    }
  }

  /** Each call adds at most one entry. */
  lemma {:induction false} RunSizeBound(table: Table, calls: seq<Call>)
    ensures |Run(table, calls)| <= |table| + |calls|
    decreases |calls|
  {
    if calls != [] {
      match Step(table, calls[0])
      case Success(t) =>
        assert |t| <= |table| + 1;
        RunSizeBound(t, calls[1..]);
      case Failure(_) =>
        RunSizeBound(table, calls[1..]);
    }
  }

  /** The calls register non-nil modules under pairwise distinct names that
      are not yet in `table`. */
  ghost predicate FreshRegistrations(table: Table, calls: seq<Call>)
  {
    && (forall i :: 0 <= i < |calls| ==> calls[i].RegisterCall? && calls[i].modular != null)
    && (forall i :: 0 <= i < |calls| ==> calls[i].name !in table)
    && (forall i, j :: 0 <= i < j < |calls| ==> calls[i].name != calls[j].name)
  }

  /** The names registered by `calls`. */
  ghost function Names(calls: seq<Call>): set<string>
    decreases |calls|
  {
    if calls == [] then {}
    else (if calls[0].RegisterCall? then {calls[0].name} else {}) + Names(calls[1..])
  }

  /** A name is in `Names(calls)` exactly when one of the calls registers it. */
  lemma {:induction false} NamesMembers(calls: seq<Call>, n: string)
    ensures n in Names(calls) <==> exists i :: 0 <= i < |calls| && calls[i].RegisterCall? && calls[i].name == n
    decreases |calls|
  {
    if calls != [] {
      var rest := calls[1..];
      NamesMembers(rest, n);
      if n in Names(rest) {
        var i :| 0 <= i < |rest| && rest[i].RegisterCall? && rest[i].name == n;
        assert calls[i + 1] == rest[i];
      }
      if exists i :: 0 <= i < |calls| && calls[i].RegisterCall? && calls[i].name == n {
        var i :| 0 <= i < |calls| && calls[i].RegisterCall? && calls[i].name == n;
        if i > 0 { assert rest[i - 1] == calls[i]; }
      }
    }
  }

  /** Dropping the first of a list of fresh registrations leaves fresh
      registrations for the table that now holds the first. */
  lemma FreshRegistrationsTail(table: Table, calls: seq<Call>)
    requires calls != [] && FreshRegistrations(table, calls)
    ensures FreshRegistrations(table[calls[0].name := calls[0].modular], calls[1..])
  {
    var t := table[calls[0].name := calls[0].modular];
    var rest := calls[1..];
    forall i | 0 <= i < |rest| ensures rest[i].name !in t {
      assert rest[i] == calls[i + 1];
    }
  }

  /** Updating a table at `k` adds `k` to its keys. */
  lemma UpdateKeys(table: Table, k: string, v: object)
    ensures table[k := v].Keys == table.Keys + {k}
  {
  }

  /** Registering N distinct fresh names grows the table by exactly N. */
  lemma {:induction false} RunFreshRegistrationsSize(table: Table, calls: seq<Call>)
    requires FreshRegistrations(table, calls)
    ensures |Run(table, calls)| == |table| + |calls|
    decreases |calls|
  {
    if calls != [] {
      var c, rest := calls[0], calls[1..];
      RegisterInserts(table, c.name, c.modular);
      var t := table[c.name := c.modular];
      assert Run(table, calls) == Run(t, rest);
      FreshRegistrationsTail(table, calls);
      RunFreshRegistrationsSize(t, rest);
    }
  }

  /** Every registration in `calls` passes a non-nil module. */
  ghost predicate NonNilRegistrations(calls: seq<Call>)
  {
    forall i :: 0 <= i < |calls| && calls[i].RegisterCall? ==> calls[i].modular != null
  }

  /** The calls after the first pass no nil module either. */
  lemma NonNilRegistrationsTail(calls: seq<Call>)
    requires calls != [] && NonNilRegistrations(calls)
    ensures NonNilRegistrations(calls[1..])
  {
    var rest := calls[1..];
    forall i | 0 <= i < |rest| && rest[i].RegisterCall? ensures rest[i].modular != null {
      assert rest[i] == calls[i + 1];
    }
  }

  /** When no registration passes a nil module, the names registered are
      exactly the keys a run adds: a duplicate fails, but its name is
      already a key. */
  lemma {:induction false} RunNonNilKeys(table: Table, calls: seq<Call>)
    requires NonNilRegistrations(calls)
    ensures Run(table, calls).Keys == table.Keys + Names(calls)
    decreases |calls|
  {
    if calls != [] {
      var c, rest := calls[0], calls[1..];
      NonNilRegistrationsTail(calls);
      var t := After(table, c);
      RunNonNilKeys(t, rest);
      AfterKeys(table, c);
      assert Run(table, calls) == Run(t, rest);
      assert Names(calls) == (if c.RegisterCall? then {c.name} else {}) + Names(rest);
    }
  }

  /** One call that, if it registers, passes a non-nil module, leaves the
      table with the registered name added to its keys. */
  lemma AfterKeys(table: Table, call: Call)
    requires call.RegisterCall? ==> call.modular != null
    ensures After(table, call).Keys == table.Keys + (if call.RegisterCall? then {call.name} else {})
  {
    if call.RegisterCall? && call.name !in table {
      UpdateKeys(table, call.name, call.modular);
    }
  }

  /** Registering N distinct fresh names adds exactly those names as keys. */
  lemma RunFreshRegistrationsKeys(table: Table, calls: seq<Call>)
    requires FreshRegistrations(table, calls)
    ensures Run(table, calls).Keys == table.Keys + Names(calls)
  {
    RunNonNilKeys(table, calls);
  }

  /** After N distinct fresh registrations, each name maps to its own module. */
  lemma {:induction false} RunFreshRegistrationsValues(table: Table, calls: seq<Call>)
    requires FreshRegistrations(table, calls)
    ensures forall i :: 0 <= i < |calls| ==>
      calls[i].name in Run(table, calls) && Run(table, calls)[calls[i].name] == calls[i].modular
    decreases |calls|
  {
    if calls != [] {
      var c, rest := calls[0], calls[1..];
      var t := table[c.name := c.modular];
      assert Run(table, calls) == Run(t, rest);
      FreshRegistrationsTail(table, calls);
      RunFreshRegistrationsValues(t, rest);
      RunExtends(t, rest);
      var r := Run(t, rest);
      forall i | 0 <= i < |calls| ensures calls[i].name in r && r[calls[i].name] == calls[i].modular {
        if i > 0 { assert rest[i - 1] == calls[i]; }
      }
    }
  }

  // ---------------------------------------------------------------------
  // The registry object
  // ---------------------------------------------------------------------

  /** The registry, with the package-level map as its one field. */
  class Registry {
    var mods: Table

    /** The table starts out empty. */
    constructor ()
      ensures mods == map[]
    {
      mods := map[];
    }

    /** Inserts `name |-> modular`, or fails (the source panics) when the
        module is nil or the name is taken; a failure leaves the table as
        it was. */
    method Register(name: string, modular: object?) returns (outcome: Outcome<Panic>)
      modifies this
      ensures match RegisterSpec(old(mods), name, modular)
        case Success(t) => outcome == Pass && mods == t
        case Failure(p) => outcome == Fail(p) && mods == old(mods)
      ensures outcome == Pass <==> modular != null && name !in old(mods)
    {
      if modular == null {
        return Fail(NilModule);
      }
      if name in mods {
        return Fail(DuplicateName(name));
      }
      mods := mods[name := modular];
      outcome := Pass;
    }

    /** Runs `calls` on the registry one after the other; a failed
        registration does not stop the calls after it. The registry ends
        where `Run` says. */
    method Drive(calls: seq<Call>)
      modifies this
      ensures mods == Run(old(mods), calls)
    {
      var i := 0;
      while i < |calls|
        invariant 0 <= i <= |calls|
        invariant Run(mods, calls[i..]) == Run(old(mods), calls)
      {
        assert calls[i..][0] == calls[i] && calls[i..][1..] == calls[i + 1..];
        match calls[i] {
          case RegisterCall(name, modular) =>
            var outcome := Register(name, modular);
          case LoadModulesCall =>
            var modules := LoadModules();
          case LoadCall(name) =>
            var m, err := Load(name);
        }
        i := i + 1;
      }
    }

    /** A fresh sequence holding every stored module once per entry, in an
        unspecified order. The table is not modified (no `modifies`). */
    method LoadModules() returns (modules: seq<object>)
      ensures |modules| == |mods|
      ensures IsValuesMultiset(multiset(modules), mods)
    {
      modules := [];
      var rest := mods;
      while rest != map[]
        invariant |modules| + |rest| == |mods|
        invariant forall v :: multiset(modules)[v] + Occurrences(rest, v) == Occurrences(mods, v)
        decreases |rest|
      {
        var k :| k in rest;
        forall v ensures Occurrences(rest, v) == Occurrences(rest - {k}, v) + (if rest[k] == v then 1 else 0) {
          OccurrencesRemove(rest, k, v);
        }
        RemoveKeySize(rest, k);
        modules := modules + [rest[k]];
        rest := rest - {k};
      }
      assert forall v :: Occurrences(rest, v) == 0;
    }

    /** Looks up one module; a missing name yields no module and an
        `UnknownModule` error. The table is not modified. */
    method Load(name: string) returns (m: object?, err: Option<LoadError>)
      ensures err.None? <==> name in mods
      ensures err.None? ==> m == mods[name]
      ensures err.Some? ==> m == null && err.value == UnknownModule(name)
      ensures LoadSpec(mods, name) == if err.None? then Success(m) else Failure(err.value)
    {
      if name !in mods {
        return null, Some(UnknownModule(name));
      }
      m, err := mods[name], None;
    }
  }

  /** Every stored module, and only those, appears in a LoadModules result. */
  lemma LoadModulesMembers(table: Table, modules: seq<object>, v: object)
    requires IsValuesMultiset(multiset(modules), table)
    ensures v in modules <==> v in table.Values
  {
    OccurrencesPositive(table, v);
    assert v in modules <==> multiset(modules)[v] > 0;
  }

  /** Registering N distinct names into an empty table and then listing the
      modules yields N modules: exactly the registered ones. */
  lemma FreshRegistrationsThenLoadModules(calls: seq<Call>, modules: seq<object>)
    requires FreshRegistrations(map[], calls)
    requires |modules| == |Run(map[], calls)|
    requires IsValuesMultiset(multiset(modules), Run(map[], calls))
    ensures |modules| == |calls|
    ensures forall i :: 0 <= i < |calls| ==> calls[i].modular in modules
    ensures forall v :: v in modules ==> exists i :: 0 <= i < |calls| && calls[i].modular == v
  {
    var t := Run(map[], calls);
    RunFreshRegistrationsSize(map[], calls);
    RunFreshRegistrationsKeys(map[], calls);
    RunFreshRegistrationsValues(map[], calls);
    forall i | 0 <= i < |calls| ensures calls[i].modular in modules {
      LoadModulesMembers(t, modules, calls[i].modular);
      assert t[calls[i].name] in t.Values;
    }
    forall v | v in modules ensures exists i :: 0 <= i < |calls| && calls[i].modular == v {
      LoadModulesMembers(t, modules, v);
      var n :| n in t && t[n] == v;
      NamesMembers(calls, n);
      var i :| 0 <= i < |calls| && calls[i].RegisterCall? && calls[i].name == n;
    }
  }

  /** Two LoadModules calls in a row see the same snapshot. */
  method LoadModulesTwice(r: Registry) returns (first: seq<object>, second: seq<object>)
    ensures multiset(first) == multiset(second)
    ensures |first| == |second| == |r.mods|
  {
    first := r.LoadModules();
    second := r.LoadModules();
    ValuesMultisetUnique(multiset(first), multiset(second), r.mods);
  }

  /** A client of the registry: two registrations, a listing, a hit, a miss
      and a rejected duplicate registration. */
  method Example()
  {
    var registry := new Registry();
    var users, billing := new object, new object;
    var o1 := registry.Register("users", users);
    var o2 := registry.Register("billing", billing);
    assert o1 == Pass && o2 == Pass;
    var all := registry.LoadModules();
    assert |all| == 2;
    LoadModulesMembers(registry.mods, all, users);
    LoadModulesMembers(registry.mods, all, billing);
    assert registry.mods["users"] == users && registry.mods["billing"] == billing;
    assert users in all && billing in all;
    var m, err := registry.Load("users");
    assert m == users && err == None;
    m, err := registry.Load("missing");
    assert m == null && err.Some?;
    var o3 := registry.Register("users", billing);
    assert o3 == Fail(DuplicateName("users"));
  }
}
