/**
 * The historical query manager: a registry of history source factories
 * keyed by name, and the ordered list of history sources loaded from the
 * configuration files. Both are updated in place.
 */
module HistoricalQueries {
  import opened Wrappers
  import JavaSplit
  import opened HistoryModel

  class HistoricalQueryManager {
    var factories: map<string, Factory>
    var sources: seq<Source>

    /** Every registered factory is filed under its own name. */
    ghost predicate Valid()
      reads this
    {
      KeyedByName(factories)
    }

    /** A new manager knows no factory and no source. */
    constructor ()
      ensures Valid()
      ensures factories == map[] && sources == []
    {
      factories := map[];
      sources := [];
    }

    /**
     * Registers `f` under its name with an atomic put-if-absent; a name that
     * is already taken throws and the first factory stays registered.
     */
    method AddQueryHistorySourceFactory(f: Factory) returns (r: Outcome<Error>)
      requires Valid()
      modifies this`factories
      ensures Valid()
      ensures f.name !in old(factories) ==> r == Pass && factories == old(factories)[f.name := f]
      ensures f.name in old(factories) ==> r == Fail(AlreadyRegistered(f.name)) && factories == old(factories)
      ensures Registration(r, factories) == Register(old(factories), f)
    {
      if f.name in factories {
        r := Fail(AlreadyRegistered(f.name));
      } else {
        factories := factories[f.name := f];
        r := Pass;
      }
    }

    /**
     * Loads the configured history sources from `files` and appends them to
     * the source list; the factory registry is only read.
     */
    method LoadConfiguredQueryHistorySources(files: Files) returns (r: Outcome<Error>)
      requires Valid()
      modifies this`sources
      ensures Valid()
      ensures factories == old(factories)
      ensures old(sources) <= sources
      ensures HistoryConfiguration !in files ==> r == Pass && sources == old(sources)
      ensures HistoryConfiguration in files && InstanceNames(files[HistoryConfiguration]) == None ==>
        r == Fail(MissingInstanceNames) && sources == old(sources)
      ensures sources == old(sources) + Load(files, factories).appended
      ensures r == Load(files, factories).outcome
    {
      if HistoryConfiguration !in files {
        r := Pass;
        return;
      }
      var properties := files[HistoryConfiguration];
      var names := InstanceNames(properties);
      if names == None {
        r := Fail(MissingInstanceNames);
        return;
      }
      var instances := JavaSplit.Split(names.value, ',');
      ghost var expected := LoadInstances(instances, files, factories);
      ghost var initial := sources;
      ghost var appended: seq<Source> := [];
      var i := 0;
      while i < |instances|
        invariant 0 <= i <= |instances|
        invariant sources == initial + appended
        invariant expected == Prepend(appended, LoadInstances(instances[i..], files, factories))
      {
        var instance := instances[i];
        var path := InstancePath(instance);
        if path !in files {
          LoadInstancesSkip(instances, i, files, factories);
          i := i + 1;
          continue;
        }
        var instanceProperties := files[path];
        // The Java method re-checks the root instance names here; they are known non-empty, so it never fails.
        if FactoryNameProperty !in instanceProperties {
          LoadInstancesThrow(instances, i, files, factories);
          LoadListedInstances(files, factories, names.value);
          r := Fail(NullFactoryName(instance));
          return;
        }
        var factoryName := instanceProperties[FactoryNameProperty];
        if factoryName in factories {
          LoadInstancesAppend(instances, i, files, factories);
          var source := factories[factoryName].create(instanceProperties);
          PrependPrepend(appended, [source], LoadInstances(instances[i + 1..], files, factories));
          assert sources + [source] == initial + (appended + [source]);
          sources := sources + [source];
          appended := appended + [source];
        } else {
          LoadInstancesSkip(instances, i, files, factories);
        }
        i := i + 1;
      }
      assert instances[i..] == [];
      LoadListedInstances(files, factories, names.value);
      r := Pass;
    }

    /** The record of the first source, in list order, that knows `queryId`; changes nothing. */
    method GetQueryById(queryId: string) returns (info: Option<QueryInfo>)
      ensures info == FirstMatch(sources, queryId)
      ensures info == None <==> forall j :: 0 <= j < |sources| ==> sources[j](queryId) == None
      ensures info != None ==> exists i :: 0 <= i < |sources| && sources[i](queryId) == info &&
                                           forall j :: 0 <= j < i ==> sources[j](queryId) == None
    {
      FirstMatchSpec(sources, queryId);
      var i := 0;
      while i < |sources|
        invariant 0 <= i <= |sources|
        invariant FirstMatch(sources, queryId) == FirstMatch(sources[i..], queryId)
      {
        assert sources[i..][0] == sources[i] && sources[i..][1..] == sources[i + 1..];
        info := sources[i](queryId);
        if info != None {
          return;
        }
        i := i + 1;
      }
      info := None;
    }
  }

  /** Loading twice with the same files: the second load appends the same sources again. */
  method LoadTwice(files: Files, f: Factory) returns (m: HistoricalQueryManager)
    ensures fresh(m)
    ensures m.factories == map[f.name := f]
    ensures Load(files, m.factories).outcome == Pass ==>
      m.sources == Load(files, m.factories).appended + Load(files, m.factories).appended
  {
    m := new HistoricalQueryManager();
    var _ := m.AddQueryHistorySourceFactory(f);
    ghost var loaded := Load(files, m.factories);
    var first := m.LoadConfiguredQueryHistorySources(files);
    assert m.sources == loaded.appended;
    if first == Pass {
      var _ := m.LoadConfiguredQueryHistorySources(files);
    }
  }
}
