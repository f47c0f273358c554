/**
 * Values behind the historical query manager: configuration files already
 * parsed into property maps, plugin factories and the history sources they
 * create, and the specification of loading and of lookup by query id.
 */
module HistoryModel {
  import opened Wrappers
  import JavaSplit

  /** The record a history source returns for a query; opaque to the manager. */
  type QueryInfo

  /** A parsed `.properties` file. */
  type Properties = map<string, string>

  /** A history source answers a query id with a record, or with nothing (Java null). */
  type Source = string -> Option<QueryInfo>

  /** A plugin factory: its registered name and the source it builds from an instance's properties. */
  datatype Factory = Factory(name: string, create: Properties -> Source)

  /** The configuration files that exist, by path, each already parsed. */
  type Files = map<string, Properties>

  /** The exceptions the manager's methods can throw. */
  datatype Error =
    | AlreadyRegistered(name: string)   // IllegalArgumentException from registration
    | MissingInstanceNames              // IllegalArgumentException from the root configuration check
    | NullFactoryName(instance: string) // NullPointerException: the instance names no factory

  const HistoryConfiguration: string := "etc/history.properties"
  const InstanceNamesProperty: string := "history-manager.instance.names"
  const ConfDir: string := "etc/history/"
  const FactoryNameProperty: string := "history-manager.factory.name"

  /** Where the properties of one configured instance live. */
  function InstancePath(instance: string): string
  {
    ConfDir + instance + ".properties"
  }

  /** An instance's path is the configuration directory, the name verbatim, then ".properties". */
  lemma InstancePathShape(instance: string)
    ensures var path := InstancePath(instance);
      |path| == |ConfDir| + |instance| + |".properties"| &&
      path[..|ConfDir|] == ConfDir &&
      path[|ConfDir|..|ConfDir| + |instance|] == instance &&
      path[|ConfDir| + |instance|..] == ".properties"
  {
  }

  /** Distinct instance names never share a configuration file. */
  lemma InstancePathInjective(a: string, b: string)
    ensures InstancePath(a) == InstancePath(b) <==> a == b
  {
    if InstancePath(a) == InstancePath(b) {
      assert |a| == |b|;
      forall k | 0 <= k < |a| ensures a[k] == b[k] {
        assert InstancePath(a)[|ConfDir| + k] == a[k];
        assert InstancePath(b)[|ConfDir| + k] == b[k];
      }
    }
  }

  // ---------------------------------------------------------------- registry

  /** Every factory is filed under its own name. */
  ghost predicate KeyedByName(factories: map<string, Factory>)
  {
    forall n :: n in factories ==> factories[n].name == n
  }

  /** What registering `f` does: the outcome and the new registry. */
  datatype Registration = Registration(outcome: Outcome<Error>, factories: map<string, Factory>)

  /**
   * `putIfAbsent` of `f` under its name, throwing when the name was taken:
   * a new name adds exactly that entry; a taken name fails and leaves the
   * first registration in place.
   */
  function Register(factories: map<string, Factory>, f: Factory): (r: Registration)
    ensures r.outcome == Pass <==> f.name !in factories
    ensures r.outcome != Pass ==> r.outcome == Fail(AlreadyRegistered(f.name))
    ensures r.factories.Keys == factories.Keys + {f.name}
    ensures r.factories[f.name] == if f.name in factories then factories[f.name] else f
    ensures forall n :: n in factories ==> r.factories[n] == factories[n]
  {
    if f.name in factories then Registration(Fail(AlreadyRegistered(f.name)), factories)
    else Registration(Pass, factories[f.name := f])
  }

  /** Registering a sequence of factories one after another. */
  function RegisterAll(factories: map<string, Factory>, fs: seq<Factory>): (r: map<string, Factory>)
    ensures r.Keys == factories.Keys + set i | 0 <= i < |fs| :: fs[i].name
    decreases |fs|
  {
    if fs == [] then factories else RegisterAll(Register(factories, fs[0]).factories, fs[1..])
  }

  /** Names of `fs`, pairwise distinct and all new to `factories`. */
  ghost predicate FreshDistinctNames(factories: map<string, Factory>, fs: seq<Factory>)
  {
    (forall i :: 0 <= i < |fs| ==> fs[i].name !in factories) &&
    (forall i, j :: 0 <= i < j < |fs| ==> fs[i].name != fs[j].name)
  }

  /** No later registration replaces a factory that is already registered. */
  lemma {:induction false} RegisterAllKeepsFirst(factories: map<string, Factory>, fs: seq<Factory>)
    decreases |fs|
    ensures forall n :: n in factories ==> RegisterAll(factories, fs)[n] == factories[n]
  {
    if fs != [] {
      RegisterAllKeepsFirst(Register(factories, fs[0]).factories, fs[1..]);
    }
  }

  /** Factories with distinct, new names all register: the registry grows by exactly them. */
  lemma {:induction false} RegisterAllDistinct(factories: map<string, Factory>, fs: seq<Factory>)
    requires FreshDistinctNames(factories, fs)
    decreases |fs|
    ensures |RegisterAll(factories, fs)| == |factories| + |fs|
    ensures forall i :: 0 <= i < |fs| ==> RegisterAll(factories, fs)[fs[i].name] == fs[i]
  {
    if fs != [] {
      var next := Register(factories, fs[0]).factories;
      assert FreshDistinctNames(next, fs[1..]) by {
        forall i | 0 <= i < |fs[1..]| ensures fs[1..][i].name !in next {
          assert fs[1..][i] == fs[i + 1];
        }
      }
      RegisterAllDistinct(next, fs[1..]);
      RegisterAllKeepsFirst(next, fs[1..]);
      assert |next| == |factories| + 1 by {
        assert next.Keys == factories.Keys + {fs[0].name};
      }
      forall i | 0 <= i < |fs| ensures RegisterAll(factories, fs)[fs[i].name] == fs[i] {
        if i > 0 {
          assert fs[1..][i - 1] == fs[i];
        }
      }
    }
  }

  // ----------------------------------------------------------------- loading

  /** The instance's file exists and names a registered factory: it yields a source. */
  predicate Eligible(instance: string, files: Files, factories: map<string, Factory>)
    ensures Eligible(instance, files, factories) ==> InstancePath(instance) in files && !LacksFactoryName(instance, files)
  {
    InstancePath(instance) in files &&
    FactoryNameProperty in files[InstancePath(instance)] &&
    files[InstancePath(instance)][FactoryNameProperty] in factories
  }

  /** The instance's file exists but has no factory name: looking it up throws. */
  predicate LacksFactoryName(instance: string, files: Files)
  {
    InstancePath(instance) in files && FactoryNameProperty !in files[InstancePath(instance)]
  }

  /** The source an eligible instance yields: its factory applied to the instance's whole property map. */
  function Instantiate(instance: string, files: Files, factories: map<string, Factory>): Source
    requires Eligible(instance, files, factories)
  {
    var props := files[InstancePath(instance)];
    factories[props[FactoryNameProperty]].create(props)
  }

  /** What a load adds to the source list, and how it ends. */
  datatype Loaded = Loaded(appended: seq<Source>, outcome: Outcome<Error>)

  /** `prefix` added before what `rest` appends. */
  function Prepend(prefix: seq<Source>, rest: Loaded): Loaded
  {
    Loaded(prefix + rest.appended, rest.outcome)
  }

  /** Prepending twice is prepending the concatenation. */
  lemma PrependPrepend(a: seq<Source>, b: seq<Source>, rest: Loaded)
    ensures Prepend(a, Prepend(b, rest)) == Prepend(a + b, rest)
  {
  }

  /**
   * The loop over instance names: missing files and unregistered factory
   * names are skipped, eligible instances append in order, and the first
   * existing file without a factory name aborts, keeping what came before.
   */
  function LoadInstances(instances: seq<string>, files: Files, factories: map<string, Factory>): (r: Loaded)
    ensures |r.appended| <= |instances|
    ensures r.outcome == Pass || r.outcome.error.NullFactoryName?
  {
    if instances == [] then Loaded([], Pass)
    else
      var instance := instances[0];
      if LacksFactoryName(instance, files) then Loaded([], Fail(NullFactoryName(instance)))
      else if Eligible(instance, files, factories) then
        Prepend([Instantiate(instance, files, factories)], LoadInstances(instances[1..], files, factories))
      else LoadInstances(instances[1..], files, factories)
  }

  /** A turn of the loop over instance names that skips position `i`. */
  lemma LoadInstancesSkip(instances: seq<string>, i: nat, files: Files, factories: map<string, Factory>)
    requires i < |instances|
    requires !LacksFactoryName(instances[i], files) && !Eligible(instances[i], files, factories)
    ensures LoadInstances(instances[i..], files, factories) == LoadInstances(instances[i + 1..], files, factories)
  {
  }

  /** A turn of the loop over instance names that appends the source of position `i`. */
  lemma LoadInstancesAppend(instances: seq<string>, i: nat, files: Files, factories: map<string, Factory>)
    requires i < |instances|
    requires Eligible(instances[i], files, factories)
    ensures LoadInstances(instances[i..], files, factories) ==
      Prepend([Instantiate(instances[i], files, factories)], LoadInstances(instances[i + 1..], files, factories))
  {
  }

  /** A turn of the loop over instance names that throws at position `i`. */
  lemma LoadInstancesThrow(instances: seq<string>, i: nat, files: Files, factories: map<string, Factory>)
    requires i < |instances|
    requires LacksFactoryName(instances[i], files)
    ensures LoadInstances(instances[i..], files, factories) == Loaded([], Fail(NullFactoryName(instances[i])))
  {
  }

  /** The instance names the root configuration lists, if it lists any. */
  function InstanceNames(root: Properties): (r: Option<string>)
    ensures r == None <==> InstanceNamesProperty !in root || root[InstanceNamesProperty] == ""
    ensures r != None ==> r.value == root[InstanceNamesProperty] && r.value != ""
  {
    if InstanceNamesProperty in root && root[InstanceNamesProperty] != "" then Some(root[InstanceNamesProperty])
    else None
  }

  /** A whole load: no root file adds nothing; a root file without names fails; otherwise the instances load. */
  function Load(files: Files, factories: map<string, Factory>): (r: Loaded)
    ensures HistoryConfiguration !in files ==> r == Loaded([], Pass)
    ensures r.outcome == Pass || r.outcome == Fail(MissingInstanceNames) || r.outcome.error.NullFactoryName?
    ensures r.outcome == Fail(MissingInstanceNames) <==>
      HistoryConfiguration in files && InstanceNames(files[HistoryConfiguration]) == None
    ensures r.outcome == Fail(MissingInstanceNames) ==> r.appended == []
  {
    if HistoryConfiguration !in files then Loaded([], Pass)
    else
      match InstanceNames(files[HistoryConfiguration])
      case None => Loaded([], Fail(MissingInstanceNames))
      case Some(names) => LoadInstances(JavaSplit.Split(names, ','), files, factories)
  }

  /** With instance names in the root configuration, a load is the load of the names it lists. */
  lemma LoadListedInstances(files: Files, factories: map<string, Factory>, names: string)
    requires HistoryConfiguration in files && InstanceNames(files[HistoryConfiguration]) == Some(names)
    ensures Load(files, factories) == LoadInstances(JavaSplit.Split(names, ','), files, factories)
  {
  }

  /** Loading a concatenation of instance lists: the second list runs only if the first did not fail. */
  lemma {:induction false} LoadInstancesConcat(a: seq<string>, b: seq<string>, files: Files, factories: map<string, Factory>)
    ensures var la, lb := LoadInstances(a, files, factories), LoadInstances(b, files, factories);
      LoadInstances(a + b, files, factories) == if la.outcome == Pass then Prepend(la.appended, lb) else la
  {
    if a != [] {
      assert (a + b)[0] == a[0];
      assert (a + b)[1..] == a[1..] + b;
      LoadInstancesConcat(a[1..], b, files, factories);
    } else {
      assert a + b == b;
    }
  }

  /** Listing the instances twice appends their sources twice: there is no de-duplication. */
  lemma ListedTwiceLoadsTwice(instances: seq<string>, files: Files, factories: map<string, Factory>)
    requires LoadInstances(instances, files, factories).outcome == Pass
    ensures var once := LoadInstances(instances, files, factories).appended;
      LoadInstances(instances + instances, files, factories) == Loaded(once + once, Pass)
  {
    LoadInstancesConcat(instances, instances, files, factories);
  }

  /** `s` is what some eligible instance of the list instantiates to. */
  ghost predicate InstantiatedFrom(s: Source, instances: seq<string>, files: Files, factories: map<string, Factory>)
  {
    exists i :: 0 <= i < |instances| && Eligible(instances[i], files, factories) &&
                s == Instantiate(instances[i], files, factories)
  }

  /** Every appended source is the instantiation of an eligible instance from the list. */
  lemma {:induction false} LoadedSourcesAreInstantiated(instances: seq<string>, files: Files, factories: map<string, Factory>)
    ensures forall k :: 0 <= k < |LoadInstances(instances, files, factories).appended| ==>
      InstantiatedFrom(LoadInstances(instances, files, factories).appended[k], instances, files, factories)
  {
    if instances != [] {
      LoadedSourcesAreInstantiated(instances[1..], files, factories);
      var r := LoadInstances(instances, files, factories);
      var rest := LoadInstances(instances[1..], files, factories);
      forall k | 0 <= k < |r.appended|
        ensures InstantiatedFrom(r.appended[k], instances, files, factories)
      {
        var j := k;
        if !LacksFactoryName(instances[0], files) && Eligible(instances[0], files, factories) {
          j := k - 1;
        }
        if j < 0 {
          assert r.appended[k] == Instantiate(instances[0], files, factories);
        } else {
          assert r.appended[k] == rest.appended[j];
          assert InstantiatedFrom(rest.appended[j], instances[1..], files, factories);
          var i :| 0 <= i < |instances[1..]| && Eligible(instances[1..][i], files, factories) &&
                   rest.appended[j] == Instantiate(instances[1..][i], files, factories);
          assert instances[i + 1] == instances[1..][i];
        }
      }
    }
  }

  /** Loading succeeds exactly when no listed instance has a file without a factory name. */
  lemma {:induction false} LoadInstancesPassIff(instances: seq<string>, files: Files, factories: map<string, Factory>)
    ensures LoadInstances(instances, files, factories).outcome == Pass <==>
      forall i :: 0 <= i < |instances| ==> !LacksFactoryName(instances[i], files)
  {
    if instances != [] {
      LoadInstancesPassIff(instances[1..], files, factories);
      if forall i :: 0 <= i < |instances| ==> !LacksFactoryName(instances[i], files) {
        forall i | 0 <= i < |instances[1..]| ensures !LacksFactoryName(instances[1..][i], files) {
          assert instances[1..][i] == instances[i + 1];
        }
      } else if !LacksFactoryName(instances[0], files) {
        var i :| 0 <= i < |instances| && LacksFactoryName(instances[i], files);
        assert instances[1..][i - 1] == instances[i];
      }
    }
  }

  /** The eligible instances of the list, in list order, repeats included. */
  function EligibleInstances(instances: seq<string>, files: Files, factories: map<string, Factory>): (r: seq<string>)
    ensures |r| <= |instances|
    ensures forall k :: 0 <= k < |r| ==> r[k] in instances && Eligible(r[k], files, factories)
  {
    if instances == [] then []
    else
      var rest := EligibleInstances(instances[1..], files, factories);
      if Eligible(instances[0], files, factories) then [instances[0]] + rest else rest
  }

  /** A single instance is kept exactly when it is eligible. */
  lemma EligibleInstancesSingle(instance: string, files: Files, factories: map<string, Factory>)
    ensures EligibleInstances([instance], files, factories) == if Eligible(instance, files, factories) then [instance] else []
  {
  }

  /** Filtering a concatenation filters each part, keeping their order. */
  lemma {:induction false} EligibleInstancesConcat(a: seq<string>, b: seq<string>, files: Files, factories: map<string, Factory>)
    ensures EligibleInstances(a + b, files, factories) ==
      EligibleInstances(a, files, factories) + EligibleInstances(b, files, factories)
  {
    if a == [] {
      assert a + b == b;
    } else {
      assert (a + b)[0] == a[0] && (a + b)[1..] == a[1..] + b;
      EligibleInstancesConcat(a[1..], b, files, factories);
    }
  }

  /** Each eligible instance, instantiated. */
  function InstantiateAll(eligible: seq<string>, files: Files, factories: map<string, Factory>): (r: seq<Source>)
    requires forall k :: 0 <= k < |eligible| ==> Eligible(eligible[k], files, factories)
  {
    seq(|eligible|, k requires 0 <= k < |eligible| => Instantiate(eligible[k], files, factories))
  }

  /**
   * A successful load appends exactly the eligible instances' sources, in
   * list order: one per eligible occurrence, nothing for the others.
   */
  lemma {:induction false} LoadInstancesAppendsEligible(instances: seq<string>, files: Files, factories: map<string, Factory>)
    requires LoadInstances(instances, files, factories).outcome == Pass
    ensures LoadInstances(instances, files, factories).appended ==
      InstantiateAll(EligibleInstances(instances, files, factories), files, factories)
  {
    if instances != [] {
      LoadInstancesAppendsEligible(instances[1..], files, factories);
    }
  }

  /**
   * A load that fails stops at the first instance whose file lacks a factory
   * name; what the earlier instances appended stays appended.
   */
  lemma {:induction false} LoadStopsAtFirstNullFactoryName(instances: seq<string>, files: Files, factories: map<string, Factory>, i: nat)
    requires i < |instances| && LacksFactoryName(instances[i], files)
    requires forall j :: 0 <= j < i ==> !LacksFactoryName(instances[j], files)
    ensures var before := LoadInstances(instances[..i], files, factories);
      before.outcome == Pass &&
      LoadInstances(instances, files, factories) == Loaded(before.appended, Fail(NullFactoryName(instances[i])))
  {
    LoadInstancesPassIff(instances[..i], files, factories);
    assert instances == instances[..i] + instances[i..];
    LoadInstancesConcat(instances[..i], instances[i..], files, factories);
    assert instances[i..][0] == instances[i];
  }

  /** Three listed instances of which only the middle one yields a source. */
  lemma LoadMiddleOfThree(a: string, b: string, c: string, files: Files, factories: map<string, Factory>)
    requires InstancePath(a) !in files && InstancePath(c) !in files && Eligible(b, files, factories)
    ensures LoadInstances([a, b, c], files, factories) == Loaded([Instantiate(b, files, factories)], Pass)
  {
    assert [a, b, c][1..] == [b, c] && [b, c][1..] == [c] && [c][1..] == [];
    assert LoadInstances([c], files, factories) == Loaded([], Pass);
    assert LoadInstances([b, c], files, factories) == Loaded([Instantiate(b, files, factories)], Pass);
  }

  /**
   * Of the instances "a,b,c", only b has a file, and it names a registered
   * factory: the load succeeds with exactly b's source.
   */
  lemma OnlyConfiguredInstanceLoads(props: Properties, factories: map<string, Factory>)
    requires FactoryNameProperty in props && props[FactoryNameProperty] in factories
    ensures var files := map[HistoryConfiguration := map[InstanceNamesProperty := "a,b,c"], InstancePath("b") := props];
      Load(files, factories) == Loaded([factories[props[FactoryNameProperty]].create(props)], Pass)
  {
    var files := map[HistoryConfiguration := map[InstanceNamesProperty := "a,b,c"], InstancePath("b") := props];
    assert "a,b,c" == "a" + [','] + "b" + [','] + "c";
    JavaSplit.SplitThree("a", "b", "c", ',');
    InstancePathInjective("a", "b");
    InstancePathInjective("c", "b");
    assert |InstancePath("a")| != |HistoryConfiguration| && |InstancePath("c")| != |HistoryConfiguration|;
    LoadMiddleOfThree("a", "b", "c", files, factories);
  }

  // ------------------------------------------------------------------ lookup

  /** The answer of the first source, in list order, that has a record for `id`. */
  function FirstMatch(sources: seq<Source>, id: string): (r: Option<QueryInfo>)
    ensures r == None <==> forall j :: 0 <= j < |sources| ==> sources[j](id) == None
    ensures r != None ==> exists i :: 0 <= i < |sources| && sources[i](id) == r
  {
    if sources == [] then None
    else if sources[0](id).Some? then sources[0](id)
    else FirstMatch(sources[1..], id)
  }

  /** First-match semantics: a record that is returned is the record of the earliest source that has one. */
  lemma {:induction false} FirstMatchSpec(sources: seq<Source>, id: string)
    ensures FirstMatch(sources, id) != None ==>
      exists i :: 0 <= i < |sources| && sources[i](id) == FirstMatch(sources, id) &&
                  forall j :: 0 <= j < i ==> sources[j](id) == None
  {
    if sources != [] {
      FirstMatchSpec(sources[1..], id);
      if sources[0](id).Some? {
        assert sources[0](id) == FirstMatch(sources, id);
      } else {
        assert forall j :: 0 < j < |sources| ==> sources[j](id) == sources[1..][j - 1](id);
        if FirstMatch(sources[1..], id) != None {
          var i :| 0 <= i < |sources[1..]| && sources[1..][i](id) == FirstMatch(sources[1..], id) &&
                   forall j :: 0 <= j < i ==> sources[1..][j](id) == None;
          assert sources[i + 1](id) == FirstMatch(sources, id);
          forall j | 0 <= j < i + 1 ensures sources[j](id) == None {
            if j > 0 { assert sources[j](id) == sources[1..][j - 1](id); }
          }
        }
      }
    }
  }

  /** Looking up in a concatenation: the later list is consulted only when the earlier one has nothing. */
  lemma {:induction false} FirstMatchAppend(a: seq<Source>, b: seq<Source>, id: string)
    ensures FirstMatch(a + b, id) == if FirstMatch(a, id) != None then FirstMatch(a, id) else FirstMatch(b, id)
  {
    if a == [] {
      assert a + b == b;
    } else {
      assert (a + b)[0] == a[0];
      assert (a + b)[1..] == a[1..] + b;
      FirstMatchAppend(a[1..], b, id);
    }
  }

  /** Since loading only appends, a query already answered keeps its answer after any load. */
  lemma AnswersSurviveLoad(sources: seq<Source>, files: Files, factories: map<string, Factory>, id: string)
    requires FirstMatch(sources, id) != None
    ensures FirstMatch(sources + Load(files, factories).appended, id) == FirstMatch(sources, id)
  {
    FirstMatchAppend(sources, Load(files, factories).appended, id);
  }
}
