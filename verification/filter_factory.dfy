/**
 * The filter registry: a map from filter name to the filter it constructs.
 * Registration is strict (a name cannot be registered twice), removal is
 * lenient (removing an absent name does nothing), lookup is strict (an absent
 * name is an error, never a null filter).
 */
module FilterFactory {
  import opened Results
  import opened Filters

  type Registry = map<string, Filter>

  datatype FactoryError =
    | AlreadyRegistered(name: string)  // `RegisterFilter` of a name that is present
    | NotRegistered(name: string)      // `Create` of a name that is absent

  /** The names the factory's constructor registers, with their filters, in registration order. */
  const Builtins: seq<(string, Filter)> := [
    ("NoneFilter", NoneFilter),
    ("GrayscaleFilter", GrayscaleFilter),
    ("LightenFilter", LightenFilter),
    ("DarkenFilter", DarkenFilter),
    ("JitterFilter", JitterFilter)
  ]

  /**
   * Associates `name` with `f`. A name that is already present is rejected and
   * the registry is left as it was; a new name is added and nothing else changes.
   */
  function RegisterFilter(reg: Registry, name: string, f: Filter): (r: Result<Registry, FactoryError>)
    ensures name in reg <==> r.Failure?
    ensures r.Failure? ==> r.error == AlreadyRegistered(name)
    ensures r.Success? ==> r.value.Keys == reg.Keys + {name} && r.value[name] == f
    ensures r.Success? ==> forall n | n in reg :: r.value[n] == reg[n]
  {
    if name in reg then Failure(AlreadyRegistered(name)) else Success(reg[name := f])
  }

  /** Removes `name` if present, otherwise does nothing; every other entry is kept. */
  function DeregisterFilter(reg: Registry, name: string): (r: Registry)
    ensures r.Keys == reg.Keys - {name}
    ensures forall n | n in r :: r[n] == reg[n]
    ensures name !in reg ==> r == reg
  {
    reg - {name}
  }

  /** A new filter for `name`; an unknown name is an error (the dictionary indexer throws). */
  function Create(reg: Registry, name: string): (r: Result<Filter, FactoryError>)
    ensures r.Success? <==> name in reg
    ensures r.Success? ==> r.value == reg[name]
    ensures r.Failure? ==> r.error == NotRegistered(name)
  {
    if name in reg then Success(reg[name]) else Failure(NotRegistered(name))
  }

  /** The names of a list of entries. */
  function Names(entries: seq<(string, Filter)>): set<string>
  {
    set i | 0 <= i < |entries| :: entries[i].0
  }

  /** Entry names that are pairwise different. */
  predicate DistinctNames(entries: seq<(string, Filter)>)
  {
    forall i, j | 0 <= i < j < |entries| :: entries[i].0 != entries[j].0
  }

  /**
   * Registers entries one after another, failing at the first duplicate. With
   * distinct names none of which is present yet, every registration succeeds
   * and the registry gains exactly those names, each with its own filter.
   */
  function RegisterAll(reg: Registry, entries: seq<(string, Filter)>): (r: Result<Registry, FactoryError>)
    ensures DistinctNames(entries) && Names(entries) !! reg.Keys ==>
              && r.Success?
              && r.value.Keys == reg.Keys + Names(entries)
              && (forall n | n in reg :: r.value[n] == reg[n])
              && (forall i | 0 <= i < |entries| :: r.value[entries[i].0] == entries[i].1)
    decreases |entries|
  {
    if |entries| == 0 then Success(reg)
    else
      match RegisterFilter(reg, entries[0].0, entries[0].1)
      case Failure(e) => Failure(e)
      case Success(next) =>
        var rest := RegisterAll(next, entries[1..]);
        assert Names(entries) == {entries[0].0} + Names(entries[1..]) by {
          forall n | n in Names(entries) ensures n in {entries[0].0} + Names(entries[1..]) {
            var i :| 0 <= i < |entries| && entries[i].0 == n;
            if i > 0 { assert entries[1..][i - 1] == entries[i]; }
          }
        }
        rest
  }

  /** The five built-in names are pairwise different (their first letters already differ). */
  lemma BuiltinsDistinct()
    ensures DistinctNames(Builtins)
  {
    var initials := ['N', 'G', 'L', 'D', 'J'];
    assert forall i | 0 <= i < 5 :: Builtins[i].0[0] == initials[i];
    assert forall i, j | 0 <= i < j < 5 :: initials[i] != initials[j];
  }

  /** The names of the built-ins, as a set. */
  lemma BuiltinNames()
    ensures Names(Builtins) == {"NoneFilter", "GrayscaleFilter", "LightenFilter", "DarkenFilter", "JitterFilter"}
  {
    assert Builtins[0].0 == "NoneFilter" && Builtins[1].0 == "GrayscaleFilter" && Builtins[2].0 == "LightenFilter";
    assert Builtins[3].0 == "DarkenFilter" && Builtins[4].0 == "JitterFilter";
  }

  /** Registering the built-ins into an empty registry succeeds and yields exactly their names. */
  lemma BuiltinsRegistered()
    ensures RegisterAll(map[], Builtins).Success?
    ensures RegisterAll(map[], Builtins).value.Keys == Names(Builtins)
  {
    BuiltinsDistinct();
  }

  /** Each built-in name is registered with its own filter. */
  lemma BuiltinsRegisteredWith(i: int)
    requires 0 <= i < |Builtins|
    ensures RegisterAll(map[], Builtins).Success?
    ensures Builtins[i].0 in RegisterAll(map[], Builtins).value
    ensures RegisterAll(map[], Builtins).value[Builtins[i].0] == Builtins[i].1
  {
    BuiltinsDistinct();
  }

  /** The registry a new factory holds: exactly the five built-in filters under their class names. */
  function NewFactory(): (reg: Registry)
    ensures reg.Keys == {"NoneFilter", "GrayscaleFilter", "LightenFilter", "DarkenFilter", "JitterFilter"}
    ensures reg["NoneFilter"] == NoneFilter && reg["GrayscaleFilter"] == GrayscaleFilter
    ensures reg["LightenFilter"] == LightenFilter && reg["DarkenFilter"] == DarkenFilter
    ensures reg["JitterFilter"] == JitterFilter
  {
    BuiltinsRegistered();
    BuiltinNames();
    BuiltinsRegisteredWith(0);
    BuiltinsRegisteredWith(1);
    BuiltinsRegisteredWith(2);
    BuiltinsRegisteredWith(3);
    BuiltinsRegisteredWith(4);
    var reg := RegisterAll(map[], Builtins).value;
    reg
  }

  /** Registering a new name and then deregistering it gives back the registry it started from. */
  lemma RegisterThenDeregister(reg: Registry, name: string, f: Filter)
    requires name !in reg
    ensures RegisterFilter(reg, name, f).Success?
    ensures DeregisterFilter(RegisterFilter(reg, name, f).value, name) == reg
  {
    assert DeregisterFilter(RegisterFilter(reg, name, f).value, name).Keys == reg.Keys;
  }

  /** After a successful registration the name can be created, and it creates the registered filter. */
  lemma RegisterThenCreate(reg: Registry, name: string, f: Filter)
    requires name !in reg
    ensures Create(RegisterFilter(reg, name, f).value, name) == Success(f)
  {
  }

  /** After deregistration the name can no longer be created. */
  lemma DeregisterThenCreateFails(reg: Registry, name: string)
    ensures Create(DeregisterFilter(reg, name), name) == Failure(NotRegistered(name))
  {
  }

  /** The registered names, each exactly once; the order is whatever the dictionary enumerates. */
  method GetFilterNames(reg: Registry) returns (names: seq<string>)
    ensures forall n :: n in names <==> n in reg
    ensures forall i, j | 0 <= i < j < |names| :: names[i] != names[j]
    ensures |names| == |reg|
  {
    names := [];
    var rest := reg.Keys;
    while rest != {}
      invariant rest !! set n | n in names
      invariant forall n :: n in reg <==> n in names || n in rest
      invariant forall i, j | 0 <= i < j < |names| :: names[i] != names[j]
      invariant |names| + |rest| == |reg|
      decreases |rest|
    {
      var n :| n in rest;
      names := names + [n];
      rest := rest - {n};
    }
  }
}
