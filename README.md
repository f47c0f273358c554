# Historical query manager (Presto), modelled in Dafny

This project models `HistoricalQueryManager` of the Presto query engine. The
class is a small plugin registry with two pieces of state:

- a map from factory name to `QueryHistorySourceFactory`. Registration fills
  it with a put-if-absent and throws when the name is already taken.
- an ordered list of `QueryHistorySource`s. Loading appends to it, reading
  `etc/history.properties` and one `etc/history/<instance>.properties` per
  instance it names.

`getQueryById` asks the sources in list order and returns the first record
found, or null.

The model has four modules:

- `Wrappers` (`wrappers.dfy`): `Option` stands for a Java reference that may be
  null. `Outcome` stands for a `void` method that returns or throws.
- `JavaSplit` (`java_split.dfy`): `String.split(",")` as Java defines it. The
  string is cut at every comma and the pieces are kept verbatim. Trailing
  empty pieces are dropped. A string without a comma comes back whole.
- `HistoryModel` (`history_model.dfy`): the values. A file system is a map from
  path to parsed property map. A factory is a name plus an abstract
  `create: Properties -> Source`. A source is an abstract partial function from
  query id to `QueryInfo`. This module also holds the specification functions
  (`Register`, `LoadInstances`, `Load`, `FirstMatch`) and the lemmas about them.
- `HistoricalQueries` (`historical_query_manager.dfy`): the class
  `HistoricalQueryManager` with fields `factories: map<string, Factory>` and
  `sources: seq<Source>`. Its methods update those fields in place, as the
  Java does. `LoadConfiguredQueryHistorySources` keeps the Java `for` loop, and
  its `add` happens inside the loop. `GetQueryById` keeps the loop with its
  early return. Each method is proved against the specification functions.

Error paths are values:

- `AlreadyRegistered(name)`: the `IllegalArgumentException` thrown on a
  duplicate registration.
- `MissingInstanceNames`: the `IllegalArgumentException` thrown when the root
  configuration has no instance names or an empty value.
- `NullFactoryName(instance)`: the `NullPointerException` from
  `ConcurrentHashMap.get(null)`. It happens when an existing instance file has no
  `history-manager.factory.name`. The exception escapes the loop, so sources
  appended for earlier instances stay in the list. The model keeps that.

Instance names are used verbatim. `split(",")` does no trimming, so `"a, ,b"`
gives the instances `a`, a single space and `b`. Only trailing empty tokens
are dropped (`JavaSplit.SplitKeepsWhitespace`,
`JavaSplit.SplitDropsOnlyTrailingEmpty`). An instance file without
`history-manager.factory.name` throws the `NullPointerException` above.

## Model

| member | source | states |
|---|---|---|
| `HistoricalQueries.HistoricalQueryManager.constructor` | presto-main/src/main/java/io/prestosql/execution/HistoricalQueryManager.java:42-43 | a new manager starts with no factories and no sources |
| `HistoricalQueries.HistoricalQueryManager.AddQueryHistorySourceFactory` | presto-main/src/main/java/io/prestosql/execution/HistoricalQueryManager.java:45-52 | a new name adds exactly name→factory and returns normally. A taken name throws `AlreadyRegistered` and leaves the registry unchanged. Every factory stays filed under its own name, and the source list is not touched |
| `HistoryModel.Register` | presto-main/src/main/java/io/prestosql/execution/HistoricalQueryManager.java:49-50 | registration succeeds iff the name is new. The key set grows by exactly that name. Every existing entry is kept, including the first factory under a clashing name |
| `HistoryModel.RegisterAll` | presto-main/src/main/java/io/prestosql/execution/HistoricalQueryManager.java:45-52 | after a series of registrations, the registered names are the earlier names plus every name in the series, whatever succeeded |
| `HistoryModel.RegisterAllKeepsFirst` | presto-main/src/main/java/io/prestosql/execution/HistoricalQueryManager.java:49-50 | no later registration ever replaces a factory that is already registered |
| `HistoryModel.RegisterAllDistinct` | presto-main/src/main/java/io/prestosql/execution/HistoricalQueryManager.java:45-52 | factories with distinct, new names all register. The registry grows by exactly their number, and each is found under its own name |
| `HistoricalQueries.HistoricalQueryManager.LoadConfiguredQueryHistorySources` | presto-main/src/main/java/io/prestosql/execution/HistoricalQueryManager.java:54-79 | the factory map is never modified, so every factory stays filed under its own name, and the old source list is a prefix of the new one. No root file: returns normally with no change. A root file without instance names, or with an empty value: throws `MissingInstanceNames` with no change. Otherwise the sources appended and the outcome are exactly those of `Load` |
| `HistoryModel.Load` | presto-main/src/main/java/io/prestosql/execution/HistoricalQueryManager.java:57-77 | no root file appends nothing and passes. The load fails with `MissingInstanceNames` exactly when the root file exists without a usable names value, and then it appends nothing. The only other failure is `NullFactoryName` |
| `HistoryModel.InstanceNames` | presto-main/src/main/java/io/prestosql/execution/HistoricalQueryManager.java:62-63 | the names are absent exactly when the key is missing or its value is empty, as `isNullOrEmpty` tests. Otherwise they are the key's value, unchanged |
| `HistoryModel.LoadListedInstances` | presto-main/src/main/java/io/prestosql/execution/HistoricalQueryManager.java:61-65 | when the root configuration has instance names, a load is the loop over the names `split(",")` gives |
| `HistoryModel.LoadInstances` | presto-main/src/main/java/io/prestosql/execution/HistoricalQueryManager.java:65-77 | the loop over instance names appends no more sources than there are names. It either completes or fails with `NullFactoryName`, and with no other error |
| `HistoryModel.InstancePathShape` | presto-main/src/main/java/io/prestosql/execution/HistoricalQueryManager.java:66 | an instance's path is `etc/history/`, then the instance name verbatim, then `.properties` |
| `HistoryModel.Eligible` | presto-main/src/main/java/io/prestosql/execution/HistoricalQueryManager.java:67-74 | an instance that yields a source has an existing file, and that file has a factory name, so it cannot be one whose lookup throws |
| `HistoryModel.InstancePathInjective` | presto-main/src/main/java/io/prestosql/execution/HistoricalQueryManager.java:66 | two instance names share a configuration path iff they are equal |
| `JavaSplit.SplitAll` | presto-main/src/main/java/io/prestosql/execution/HistoricalQueryManager.java:65 | cutting at every comma gives one more piece than there are commas, and no piece contains a comma |
| `JavaSplit.DropTrailingEmpty` | presto-main/src/main/java/io/prestosql/execution/HistoricalQueryManager.java:65 | the result is a prefix of the pieces. Only empty pieces are removed, and the last kept piece is non-empty |
| `JavaSplit.Split` | presto-main/src/main/java/io/prestosql/execution/HistoricalQueryManager.java:65 | `split(",")` returns comma-free, untrimmed pieces. They are a prefix of all the pieces, and only empty pieces are cut off the end. A string without a comma comes back whole |
| `JavaSplit.JoinSplitAll` | presto-main/src/main/java/io/prestosql/execution/HistoricalQueryManager.java:65 | joining the pieces with commas gives back exactly the original string, so no character is lost or trimmed |
| `JavaSplit.SplitAllJoin` | presto-main/src/main/java/io/prestosql/execution/HistoricalQueryManager.java:65 | splitting a comma-join of one or more comma-free names gives the names back. With no names the join is `""`, which splits into `[""]` |
| `JavaSplit.SplitOnlySeparators` | presto-main/src/main/java/io/prestosql/execution/HistoricalQueryManager.java:65 | a value made only of commas lists no instance at all |
| `JavaSplit.SplitKeepsWhitespace` | presto-main/src/main/java/io/prestosql/execution/HistoricalQueryManager.java:65 | `"a, ,b"` lists the instances `a`, a single space and `b`, with no trimming and no skipping |
| `JavaSplit.SplitDropsOnlyTrailingEmpty` | presto-main/src/main/java/io/prestosql/execution/HistoricalQueryManager.java:65 | `"a,,b,,"` lists `a`, the empty name and `b`. The inner empty name is kept and the trailing ones are dropped |
| `JavaSplit.SplitKeepsLeadingEmpty` | presto-main/src/main/java/io/prestosql/execution/HistoricalQueryManager.java:65 | `",a"` lists the empty name, then `a` |
| `JavaSplit.SplitThree` | presto-main/src/main/java/io/prestosql/execution/HistoricalQueryManager.java:65 | three comma-free names, the last non-empty, joined by commas split back into exactly those three names |
| `HistoryModel.LoadInstancesConcat` | presto-main/src/main/java/io/prestosql/execution/HistoricalQueryManager.java:65-76 | loading the list `a + b` appends a's sources and then b's. If a's loading throws, the result is a's alone |
| `HistoryModel.ListedTwiceLoadsTwice` | presto-main/src/main/java/io/prestosql/execution/HistoricalQueryManager.java:65-76 | an instance list that loads without error, given twice, appends its sources twice, with no de-duplication. A list that throws, given twice, appends only what it appended before the throw |
| `HistoryModel.LoadedSourcesAreInstantiated` | presto-main/src/main/java/io/prestosql/execution/HistoricalQueryManager.java:70-75 | every appended source is the registered factory's `create` applied to the full property map of a listed instance. The instance's file must exist and its factory must be registered |
| `HistoryModel.LoadInstancesPassIff` | presto-main/src/main/java/io/prestosql/execution/HistoricalQueryManager.java:70-74 | loading the instances completes iff no listed instance has an existing file without a factory name |
| `HistoryModel.EligibleInstances` | presto-main/src/main/java/io/prestosql/execution/HistoricalQueryManager.java:66-75 | it picks no more instances than are listed, and each one it picks is from the list, has a file, and names a registered factory |
| `HistoryModel.EligibleInstancesSingle` | presto-main/src/main/java/io/prestosql/execution/HistoricalQueryManager.java:67-75 | a single listed instance is kept exactly when it is eligible |
| `HistoryModel.EligibleInstancesConcat` | presto-main/src/main/java/io/prestosql/execution/HistoricalQueryManager.java:65-75 | picking the eligible instances of a concatenated list picks each part's, in order and with repeats kept |
| `HistoryModel.LoadInstancesAppendsEligible` | presto-main/src/main/java/io/prestosql/execution/HistoricalQueryManager.java:65-76 | a successful load appends exactly one source per eligible occurrence, in list order. Missing files and unregistered factory names contribute nothing |
| `HistoryModel.LoadStopsAtFirstNullFactoryName` | presto-main/src/main/java/io/prestosql/execution/HistoricalQueryManager.java:73-75 | a failing load stops at the first instance whose file lacks a factory name. Exactly the sources of the instances before it stay appended |
| `HistoryModel.LoadMiddleOfThree` | presto-main/src/main/java/io/prestosql/execution/HistoricalQueryManager.java:66-76 | of three listed instances, two without files and one eligible, only the eligible one yields a source |
| `HistoryModel.OnlyConfiguredInstanceLoads` | presto-main/src/main/java/io/prestosql/execution/HistoricalQueryManager.java:57-76 | the root lists `a,b,c` and only `b`'s file exists, naming a registered factory. The load succeeds with exactly that factory's source built from `b`'s properties |
| `HistoricalQueries.HistoricalQueryManager.GetQueryById` | presto-main/src/main/java/io/prestosql/execution/HistoricalQueryManager.java:81-90 | returns null iff no source has the id, so also when there are no sources. Otherwise it returns the record of the earliest source that has one. Nothing is modified |
| `HistoryModel.FirstMatch` | presto-main/src/main/java/io/prestosql/execution/HistoricalQueryManager.java:83-89 | the lookup is absent exactly when every source answers null. Otherwise it is the answer of some source in the list |
| `HistoryModel.FirstMatchSpec` | presto-main/src/main/java/io/prestosql/execution/HistoricalQueryManager.java:83-89 | a record the lookup returns is the answer of a source before which every source answers null: the earliest source that has one |
| `HistoryModel.FirstMatchAppend` | presto-main/src/main/java/io/prestosql/execution/HistoricalQueryManager.java:83-89 | in a concatenated source list, the later sources are consulted only when the earlier ones have nothing |
| `HistoryModel.AnswersSurviveLoad` | presto-main/src/main/java/io/prestosql/execution/HistoricalQueryManager.java:75-89 | because loading only appends, a query id that was already answered keeps the same answer after any load |
| `HistoricalQueries.LoadTwice` | presto-main/src/main/java/io/prestosql/execution/HistoricalQueryManager.java:65-76 | on a new manager holding one factory, a second load with the same files after a first load that completes appends the same sources again, with no clearing and no de-duplication. The general case follows from the load method's contract: the factories stay unchanged, and each call appends `Load`'s sources to the old list |

## Left out

- File I/O: the existence of a file and `loadProperties` become a map from path to parsed properties, passed to the load method. Parse errors and `IOException` are not modelled, and neither are path normalisation, directories, or absolute paths in messages.
- Exception messages: an error carries the factory name or instance name, not the formatted text.
- Logging (`log.warn` when the root file is missing): it has no effect on state.
- Concurrency: `ConcurrentHashMap` and `Collections.synchronizedList` are modelled as a plain map and sequence. The model is sequential.
- The `requireNonNull` check, and a factory whose `getName()` is null: Dafny values are never null, so these `NullPointerException`s are not modelled.
- Exceptions thrown inside `create` or a source's `getQueryById`: both are modelled as total functions. In Java, a throwing source aborts the lookup.
- The `(QueryInfo)` cast and the concrete factories and sources: these are plugins, so `QueryInfo`, `create` and the sources stay abstract.
- The check at line 71: it re-tests the root instance-names string, which has already passed the check at line 63, so it never fails. It is a comment in the loop.
- `properties.remove(...)` at line 62: it changes a local copy of the root properties, so it has no observable effect. The model only reads the value.
