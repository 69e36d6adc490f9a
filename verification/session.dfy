/**
 * One database session (`Db`): its dialect, its upgrader, the guard set of
 * classes already upgrade-checked, the table-definition cache, and the
 * version rows it reads and writes.
 *
 * `Define` and `UpgradeDb` call each other, as in the source: on a cache
 * miss `Define` runs the database upgrade check first, and that check looks
 * up the version row through `Define` of the `DbVersion` model class.  The
 * guard class is added to the checked set before anything else, so the
 * nested `Define` finds the check already done; the termination measure of
 * the pair is exactly that guard.
 */
module DbSession {
  import opened Wrappers
  import opened Dialects
  import opened Versions

  /** What the model mapper derives from a model class: schema, table and declared table version. */
  datatype TableMeta = TableMeta(schemaName: Option<string>, tableName: string, tableVersion: int)

  /** A constructed table definition; `instance` tells apart two objects built for one class. */
  datatype TableDefinition = TableDefinition(modelClass: ClassId, meta: TableMeta, instance: nat)

  /** The active upgrader: its class and the version its `IQVersion` annotation declares. */
  datatype Upgrader = Upgrader(cls: ClassId, version: int)

  /** The upgrader every session starts with; it declares version 0. */
  const DefaultDbUpgrader: Upgrader := Upgrader("com.iciql.DbUpgrader.DefaultDbUpgrader", 0)

  /** The model class of the version rows. */
  const DbVersionClass: ClassId := "com.iciql.DbVersion"

  datatype IciqlException = IciqlException(message: string)

  const UnannotatedUpgraderMessage: string := "DbUpgrader must be annotated with IQVersion"
  const MergeUnsupportedMessage: string := "Merge is not supported by this SQL dialect"

  /**
   * What the session consults but does not own: the model mapper, the
   * upgrade hook's answer to each call, and whether a dialect supports merge.
   */
  datatype Env = Env(mapper: ClassId -> TableMeta, hook: HookCall -> bool,
                     supportsMerge: DialectClass -> bool)

  datatype Db = Db(
    dialect: DialectClass,
    upgrader: Upgrader,
    checked: set<ClassId>,
    cache: map<ClassId, TableDefinition>,
    built: nat,
    records: Records,
    trace: seq<Event>)

  /** A fresh session over a connection whose class is `connClass`. */
  function Open(reg: Registry, connClass: string, records: Records): (r: Db)
    ensures r.dialect == Resolve(reg, connClass)
    ensures r.upgrader == DefaultDbUpgrader && r.checked == {} && r.cache == map[]
    ensures r.records == records && r.trace == []
  {
    Db(Resolve(reg, connClass), DefaultDbUpgrader, {}, map[], 0, records, [])
  }

  /** 1 while the active upgrader's database check is still to run, else 0. */
  function Pending(s: Db): nat {
    if s.upgrader.cls in s.checked then 0 else 1
  }

  ghost predicate CacheExtends(before: map<ClassId, TableDefinition>, after: map<ClassId, TableDefinition>) {
    forall k :: k in before ==> k in after && after[k] == before[k]
  }

  /** Every row whose key is not in `keys` is as it was. */
  ghost predicate SameRowsExcept(before: Records, after: Records, keys: set<VersionKey>) {
    forall k :: k !in keys ==> (k in after <==> k in before) && (k in before ==> after[k] == before[k])
  }

  /**
   * How a session may change while its upgrader stays in place: dialect and
   * upgrader are kept, the guard set and the cache only grow, no version
   * row goes down, the trace only grows, every class newly in the guard set
   * is recorded entering it exactly once, and at most `databaseCalls`
   * database upgrade calls are made, and only once the upgrader's class is
   * in the guard set.
   */
  ghost predicate GrowsBy(s: Db, r: Db, databaseCalls: nat) {
    && r.dialect == s.dialect
    && r.upgrader == s.upgrader
    && s.checked <= r.checked
    && CacheExtends(s.cache, r.cache)
    && s.built <= r.built
    && NeverDecreases(s.records, r.records)
    && s.trace <= r.trace
    && Guards(r.trace) == Guards(s.trace) + multiset(r.checked - s.checked)
    && DatabaseInvocations(r.trace) <= DatabaseInvocations(s.trace) + databaseCalls
    && (DatabaseInvocations(r.trace) > DatabaseInvocations(s.trace) ==> s.upgrader.cls in r.checked)
  }

  /** `GrowsBy`, with a database upgrade call allowed only while the database check is pending. */
  ghost predicate Grows(s: Db, r: Db) {
    GrowsBy(s, r, Pending(s))
  }

  /**
   * `Grows`, and in addition only the check of a class newly in the guard
   * set makes a hook call, and it makes at most one.
   */
  ghost predicate Evolves(s: Db, r: Db) {
    && Grows(s, r)
    && CallsBy(r.trace) <= CallsBy(s.trace) + multiset(r.checked - s.checked)
  }

  lemma DisjointSetsMultiset(a: set<ClassId>, b: set<ClassId>, c: set<ClassId>)
    requires a <= b <= c
    ensures multiset(b - a) + multiset(c - b) == multiset(c - a)
  {
    forall k ensures (multiset(b - a) + multiset(c - b))[k] == multiset(c - a)[k] {
    }
  }

  lemma GrowsTransitive(a: Db, b: Db, c: Db)
    requires Grows(a, b) && Grows(b, c)
    ensures Grows(a, c)
  {
    DisjointSetsMultiset(a.checked, b.checked, c.checked);
  }

  lemma EvolvesTransitive(a: Db, b: Db, c: Db)
    requires Evolves(a, b) && Evolves(b, c)
    ensures Evolves(a, c)
  {
    GrowsTransitive(a, b, c);
    DisjointSetsMultiset(a.checked, b.checked, c.checked);
  }

  /** The cache lookup. */
  function GetTableDefinition(s: Db, c: ClassId): (r: Option<TableDefinition>)
    ensures r.Some? <==> c in s.cache
    ensures r.Some? ==> r.value == s.cache[c]
  {
    if c in s.cache then Some(s.cache[c]) else None
  }

  /**
   * The table definition of model class `c`: the cached one on a hit, with
   * nothing else done; on a miss, the database upgrade check runs first and
   * a new definition is then built from the mapper and cached.
   */
  function Define(s: Db, c: ClassId, env: Env): (r: (Db, TableDefinition))
    decreases Pending(s), 1
    ensures Evolves(s, r.0)
    ensures c in r.0.cache && r.0.cache[c] == r.1
    ensures c in s.cache ==> r == (s, s.cache[c])
    ensures c !in s.cache ==>
              && r.1.modelClass == c && r.1.meta == env.mapper(c)
              && s.built <= r.1.instance == r.0.built - 1
              && s.upgrader.cls in r.0.checked
              && r.0.checked == s.checked + {s.upgrader.cls}
              && r.0.records == UpgradeDb(s, env).records
              && r.0.trace == UpgradeDb(s, env).trace
    ensures r.0.cache.Keys <= s.cache.Keys + {c, DbVersionClass}
    ensures SameRowsExcept(s.records, r.0.records, {DatabaseKey})
    ensures TableInvocations(r.0.trace) == TableInvocations(s.trace)
    ensures Pending(s) == 0 ==> r.0.checked == s.checked && r.0.records == s.records && r.0.trace == s.trace
  {
    match GetTableDefinition(s, c)
    case Some(def) => (s, def)
    case None =>
      var s1 := UpgradeDb(s, env);
      var def := TableDefinition(c, env.mapper(c), s1.built);
      (s1.(cache := s1.cache[c := def], built := s1.built + 1), def)
  }

  /** Asking again for the same class gives the same definition and changes nothing. */
  lemma DefineTwiceSameDefinition(s: Db, c: ClassId, env: Env)
    ensures var r := Define(s, c, env);
            Define(r.0, c, env) == r
  {
  }

  /**
   * The database-level upgrade check of the active upgrader.  The guard is
   * the upgrader's class; it enters the checked set before the version row
   * is looked up (which goes through `Define` of `DbVersion`).
   */
  function UpgradeDb(s: Db, env: Env): (r: Db)
    decreases Pending(s), 0
    ensures Evolves(s, r)
    ensures r.checked == s.checked + {s.upgrader.cls}
    ensures s.upgrader.cls in s.checked ==> r == s
    ensures s.upgrader.version <= 0 ==>
              && r.records == s.records
              && StoreAccesses(r.trace) == StoreAccesses(s.trace)
              && Invocations(r.trace) == Invocations(s.trace)
    ensures r.cache.Keys <= s.cache.Keys + {DbVersionClass}
    ensures SameRowsExcept(s.records, r.records, {DatabaseKey})
    ensures TableInvocations(r.trace) == TableInvocations(s.trace)
  {
    var u := s.upgrader;
    if u.cls in s.checked then s
    else
      var s1 := s.(checked := s.checked + {u.cls}, trace := s.trace + [Checking(u.cls)]);
      AppendChecking(s.trace, u.cls);
      if u.version <= 0 then
        assert s1.checked - s.checked == {u.cls};
        s1
      else
        var r := DatabaseVersionCheck(s1, env);
        GuardedCheckEvolves(s, u.cls, r);
        r
  }

  /**
   * The part of the database check after the guard and the positive-version
   * test: look the row up through `Define` of `DbVersion`, then run the
   * version step for the database.
   */
  function DatabaseVersionCheck(s: Db, env: Env): (r: Db)
    requires s.upgrader.cls in s.checked
    decreases Pending(s), 2
    ensures GrowsBy(s, r, 1) && r.checked == s.checked
    ensures CallsBy(r.trace) <= CallsBy(s.trace) + multiset{s.upgrader.cls}
    ensures r.cache.Keys <= s.cache.Keys + {DbVersionClass}
    ensures SameRowsExcept(s.records, r.records, {DatabaseKey})
    ensures TableInvocations(r.trace) == TableInvocations(s.trace)
  {
    var u := s.upgrader;
    var s2 := Define(s, DbVersionClass, env).0;
    assert s2.trace == s.trace && s2.records == s.records && s2.checked == s.checked;
    var step := VersionStep(s2.records, u.cls, u.cls, Database, u.version, env.hook);
    VersionStepOutcomes(s2.records, u.cls, u.cls, Database, u.version, env.hook);
    VersionStepCallsOnce(s2.records, u.cls, u.cls, Database, u.version, env.hook);
    TraceAppend(s2.trace, step.1);
    CallsAppend(s2.trace, step.1);
    var r := s2.(records := step.0, trace := s2.trace + step.1);
    assert Guards(r.trace) == Guards(s.trace);
    r
  }

  /**
   * The database check once past its guard with a positive declared
   * version: the guard is recorded before the database row is read; a
   * missing row is inserted with the declared version and no hook is called;
   * a lower stored version makes exactly one `upgradeDatabase` call with
   * (stored, declared), and the row takes the declared version exactly when
   * the call succeeds; an up-to-date row is left alone.
   */
  lemma UpgradeDbTransitions(s: Db, env: Env)
    requires s.upgrader.cls !in s.checked && s.upgrader.version > 0
    ensures var r := UpgradeDb(s, env);
            var v := s.upgrader.version;
            && |r.trace| >= |s.trace| + 2
            && r.trace[|s.trace|] == Checking(s.upgrader.cls)
            && r.trace[|s.trace| + 1] == ReadVersion(DatabaseKey)
            && DatabaseKey in r.records
            && (DatabaseKey !in s.records ==>
                  r.records[DatabaseKey] == v && Invocations(r.trace) == Invocations(s.trace))
            && (DatabaseKey in s.records && s.records[DatabaseKey] < v ==>
                  var call := HookCall(s.upgrader.cls, Database, s.records[DatabaseKey], v);
                  && Invocations(r.trace) == Invocations(s.trace) + [call]
                  && r.records[DatabaseKey] == (if env.hook(call) then v else s.records[DatabaseKey]))
            && (DatabaseKey in s.records && v <= s.records[DatabaseKey] ==>
                  r.records == s.records && Invocations(r.trace) == Invocations(s.trace))
  {
    var u := s.upgrader;
    var s1 := s.(checked := s.checked + {u.cls}, trace := s.trace + [Checking(u.cls)]);
    var s2 := Define(s1, DbVersionClass, env).0;
    var step := VersionStep(s2.records, u.cls, u.cls, Database, u.version, env.hook);
    VersionStepOutcomes(s2.records, u.cls, u.cls, Database, u.version, env.hook);
    AppendChecking(s.trace, u.cls);
    TraceAppend(s2.trace, step.1);
    StoreAccessesOnly([]);
    assert DatabaseVersionCheck(s1, env) == s2.(records := step.0, trace := s2.trace + step.1);
    assert UpgradeDb(s, env) == DatabaseVersionCheck(s1, env);
  }

  /**
   * Defining `DbVersion` itself first in a session whose database check is
   * due builds two definitions: the nested lookup inside the check builds
   * and caches one, and the outer `Define` then builds a second and caches it
   * in its place.
   */
  lemma DbVersionFirstBuildsTwice(s: Db, env: Env)
    requires DbVersionClass !in s.cache && Pending(s) == 1 && s.upgrader.version > 0
    ensures var r := Define(s, DbVersionClass, env);
            r.0.built == s.built + 2 && r.1.instance == s.built + 1
  {
    var u := s.upgrader;
    var s1 := s.(checked := s.checked + {u.cls}, trace := s.trace + [Checking(u.cls)]);
    var d := Define(s1, DbVersionClass, env);
    assert d.0.built == s.built + 1;
    assert UpgradeDb(s, env).built == s.built + 1;
  }

  /** The schema a table check uses: a missing or empty schema name becomes "". */
  function SchemaOf(meta: TableMeta): (r: string)
    ensures r == "" <==> meta.schemaName.None? || meta.schemaName.value == ""
    ensures meta.schemaName.Some? ==> r == meta.schemaName.value
  {
    match meta.schemaName
    case None => ""
    case Some(name) => name
  }

  function TableTarget(def: TableDefinition): Target {
    Table(SchemaOf(def.meta), def.meta.tableName)
  }

  /**
   * The table-level upgrade check of one definition.  The guard is the
   * definition's model class.  The version row is looked up through
   * `Define` of `DbVersion`, which can itself run a pending database check.
   */
  function UpgradeTable(s: Db, def: TableDefinition, env: Env): (r: Db)
    ensures Evolves(s, r)
    ensures s.checked + {def.modelClass} <= r.checked <= s.checked + {def.modelClass, s.upgrader.cls}
    ensures def.modelClass in s.checked ==> r == s
    ensures def.meta.tableVersion <= 0 ==>
              && r.records == s.records
              && StoreAccesses(r.trace) == StoreAccesses(s.trace)
              && Invocations(r.trace) == Invocations(s.trace)
    ensures SameRowsExcept(s.records, r.records, {KeyOf(TableTarget(def)), DatabaseKey})
    ensures AddsAtMostOne(TableInvocations(s.trace), TableInvocations(r.trace), TableTarget(def))
  {
    var c := def.modelClass;
    if c in s.checked then s
    else
      var s1 := s.(checked := s.checked + {c}, trace := s.trace + [Checking(c)]);
      AppendChecking(s.trace, c);
      assert s1.checked - s.checked == {c};
      assert Evolves(s, s1);
      if def.meta.tableVersion <= 0 then s1
      else
        var r := TableVersionCheck(s1, def, env);
        assert Pending(s1) <= Pending(s);
        GuardedCheckEvolves(s, c, r);
        assert TableInvocations(s1.trace) == TableInvocations(s.trace);
        r
  }

  /**
   * A check that first puts `c` in the guard set and then changes the
   * session as `Grows` allows, making hook calls charged to `c` or to newly
   * checked classes, changes it as `Evolves` allows.
   */
  lemma GuardedCheckEvolves(s: Db, c: ClassId, r: Db)
    requires c !in s.checked
    requires var s1 := s.(checked := s.checked + {c}, trace := s.trace + [Checking(c)]);
             && GrowsBy(s1, r, Pending(s))
             && CallsBy(r.trace) <= CallsBy(s1.trace) + multiset(r.checked - s1.checked) + multiset{c}
    ensures Evolves(s, r)
  {
    var s1 := s.(checked := s.checked + {c}, trace := s.trace + [Checking(c)]);
    AppendChecking(s.trace, c);
    assert s1.checked - s.checked == {c};
    DisjointSetsMultiset(s.checked, s1.checked, r.checked);
    assert multiset(r.checked - s.checked) == multiset{c} + multiset(r.checked - s1.checked);
    assert Guards(r.trace) == Guards(s.trace) + multiset(r.checked - s.checked);
    assert CallsBy(r.trace) <= CallsBy(s.trace) + multiset(r.checked - s.checked);
  }

  /**
   * The part of the table check after the guard and the positive-version
   * test: look the row up through `Define` of `DbVersion`, then run the
   * version step for the table.
   */
  function TableVersionCheck(s: Db, def: TableDefinition, env: Env): (r: Db)
    requires def.modelClass in s.checked
    ensures Grows(s, r)
    ensures r.checked <= s.checked + {s.upgrader.cls}
    ensures CallsBy(r.trace) <= CallsBy(s.trace) + multiset(r.checked - s.checked) + multiset{def.modelClass}
    ensures SameRowsExcept(s.records, r.records, {KeyOf(TableTarget(def)), DatabaseKey})
    ensures AddsAtMostOne(TableInvocations(s.trace), TableInvocations(r.trace), TableTarget(def))
  {
    var c := def.modelClass;
    var s2 := Define(s, DbVersionClass, env).0;
    var step := VersionStep(s2.records, s.upgrader.cls, c, TableTarget(def), def.meta.tableVersion, env.hook);
    VersionStepOutcomes(s2.records, s.upgrader.cls, c, TableTarget(def), def.meta.tableVersion, env.hook);
    VersionStepCallsOnce(s2.records, s.upgrader.cls, c, TableTarget(def), def.meta.tableVersion, env.hook);
    TraceAppend(s2.trace, step.1);
    CallsAppend(s2.trace, step.1);
    var r := s2.(records := step.0, trace := s2.trace + step.1);
    assert TableInvocations(r.trace) == TableInvocations(s.trace) + Invocations(step.1);
    assert Grows(s2, r);
    GrowsTransitive(s, s2, r);
    r
  }

  /**
   * The table check once past its guard with a positive declared version,
   * for a table whose row is not the database row: the guard is recorded
   * first; a missing row is inserted with the declared version; a lower
   * stored version leads to one `upgradeTable` call with (schema, table,
   * stored, declared), made last, and the row takes the declared version
   * exactly when it succeeds; an up-to-date row is left alone.  When the
   * database check has already run, nothing else is read, written or called.
   */
  lemma UpgradeTableTransitions(s: Db, def: TableDefinition, env: Env)
    requires def.modelClass !in s.checked && def.meta.tableVersion > 0
    requires KeyOf(TableTarget(def)) != DatabaseKey
    ensures var r := UpgradeTable(s, def, env);
            var key := KeyOf(TableTarget(def));
            var v := def.meta.tableVersion;
            && |r.trace| > |s.trace|
            && r.trace[|s.trace|] == Checking(def.modelClass)
            && key in r.records
            && (Pending(s) == 0 ==> SameRowsExcept(s.records, r.records, {key}))
            && (key !in s.records ==> r.records[key] == v)
            && (key !in s.records && Pending(s) == 0 ==> Invocations(r.trace) == Invocations(s.trace))
            && (key in s.records && s.records[key] < v ==>
                  var call := HookCall(s.upgrader.cls, TableTarget(def), s.records[key], v);
                  && |Invocations(r.trace)| > 0
                  && Invocations(r.trace)[|Invocations(r.trace)| - 1] == call
                  && (Pending(s) == 0 ==> Invocations(r.trace) == Invocations(s.trace) + [call])
                  && r.records[key] == (if env.hook(call) then v else s.records[key]))
            && (key in s.records && v <= s.records[key] ==>
                  && r.records[key] == s.records[key]
                  && (Pending(s) == 0 ==> Invocations(r.trace) == Invocations(s.trace)))
  {
    var c := def.modelClass;
    var s1 := s.(checked := s.checked + {c}, trace := s.trace + [Checking(c)]);
    AppendChecking(s.trace, c);
    TableVersionCheckOutcomes(s1, def, env);
    assert UpgradeTable(s, def, env) == TableVersionCheck(s1, def, env);
    assert Pending(s) == 0 ==> Pending(s1) == 0;
  }

  /** The outcomes of `UpgradeTableTransitions`, for the part after the guard. */
  lemma TableVersionCheckOutcomes(s: Db, def: TableDefinition, env: Env)
    requires def.modelClass in s.checked
    requires KeyOf(TableTarget(def)) != DatabaseKey
    ensures var r := TableVersionCheck(s, def, env);
            var key := KeyOf(TableTarget(def));
            var v := def.meta.tableVersion;
            && key in r.records
            && (Pending(s) == 0 ==> SameRowsExcept(s.records, r.records, {key}))
            && (key !in s.records ==> r.records[key] == v)
            && (key !in s.records && Pending(s) == 0 ==> Invocations(r.trace) == Invocations(s.trace))
            && (key in s.records && s.records[key] < v ==>
                  var call := HookCall(s.upgrader.cls, TableTarget(def), s.records[key], v);
                  && |Invocations(r.trace)| > 0
                  && Invocations(r.trace)[|Invocations(r.trace)| - 1] == call
                  && (Pending(s) == 0 ==> Invocations(r.trace) == Invocations(s.trace) + [call])
                  && r.records[key] == (if env.hook(call) then v else s.records[key]))
            && (key in s.records && v <= s.records[key] ==>
                  && r.records[key] == s.records[key]
                  && (Pending(s) == 0 ==> Invocations(r.trace) == Invocations(s.trace)))
  {
    var s2 := Define(s, DbVersionClass, env).0;
    var target := TableTarget(def);
    var step := VersionStep(s2.records, s.upgrader.cls, def.modelClass, target, def.meta.tableVersion, env.hook);
    VersionStepOutcomes(s2.records, s.upgrader.cls, def.modelClass, target, def.meta.tableVersion, env.hook);
    TraceAppend(s2.trace, step.1);
    assert TableVersionCheck(s, def, env) == s2.(records := step.0, trace := s2.trace + step.1);
  }

  /**
   * Replacing the upgrader: one without a version annotation is refused and
   * the session is kept as it was; otherwise it becomes the active upgrader
   * and the whole guard set is emptied, so every check can run again.
   */
  function SetDbUpgrader(s: Db, cls: ClassId, annotation: Option<int>): (r: Result<Db, IciqlException>)
    ensures annotation.None? ==> r == Failure(IciqlException(UnannotatedUpgraderMessage))
    ensures annotation.Some? ==>
              && r.Success?
              && r.value.upgrader == Upgrader(cls, annotation.value)
              && r.value.checked == {}
              && r.value == s.(upgrader := r.value.upgrader, checked := {})
  {
    match annotation
    case None => Failure(IciqlException(UnannotatedUpgraderMessage))
    case Some(version) => Success(s.(upgrader := Upgrader(cls, version), checked := {}))
  }

  /**
   * The merge entry point up to the hand-off to the table definition: it
   * fails before any definition lookup when the session's dialect cannot
   * merge, and otherwise defines the class.
   */
  function Merge(s: Db, c: ClassId, env: Env): (r: Result<(Db, TableDefinition), IciqlException>)
    ensures !env.supportsMerge(s.dialect) <==> r.Failure?
    ensures r.Failure? ==> r.error == IciqlException(MergeUnsupportedMessage)
    ensures r.Success? ==> Evolves(s, r.value.0) && c in r.value.0.cache && r.value.0.cache[c] == r.value.1
    ensures r.Success? && c in s.cache ==> r.value == (s, s.cache[c])
  {
    if !env.supportsMerge(s.dialect) then Failure(IciqlException(MergeUnsupportedMessage))
    else Success(Define(s, c, env))
  }
}
