/**
 * Sequences of session operations, and the guarantees that hold over whole
 * runs: each guard class is checked at most once while the upgrader is not
 * replaced, each check makes at most one hook call, the database upgrade
 * hook is called at most once, and no version row ever goes down, whatever
 * happens.
 */
module Runs {
  import opened Wrappers
  import opened Dialects
  import opened Versions
  import opened DbSession

  datatype Op =
    | DefineOp(cls: ClassId)
    | UpgradeTableOp(def: TableDefinition)
    | MergeOp(cls: ClassId)
    | SetUpgraderOp(upgrader: ClassId, annotation: Option<int>)

  /** One operation; an operation that throws leaves the session as it was. */
  function Step(s: Db, op: Op, env: Env): Db {
    match op
    case DefineOp(c) => Define(s, c, env).0
    case UpgradeTableOp(def) => UpgradeTable(s, def, env)
    case MergeOp(c) =>
      (match Merge(s, c, env)
       case Success(p) => p.0
       case Failure(_) => s)
    case SetUpgraderOp(cls, annotation) =>
      (match SetDbUpgrader(s, cls, annotation)
       case Success(t) => t
       case Failure(_) => s)
  }

  function Run(s: Db, ops: seq<Op>, env: Env): Db
    decreases |ops|
  {
    if ops == [] then s else Run(Step(s, ops[0], env), ops[1..], env)
  }

  predicate KeepsUpgrader(ops: seq<Op>) {
    forall i :: 0 <= i < |ops| ==> !ops[i].SetUpgraderOp?
  }

  lemma StepEvolves(s: Db, op: Op, env: Env)
    requires !op.SetUpgraderOp?
    ensures Evolves(s, Step(s, op, env))
  {
  }

  /** A run that keeps its upgrader changes the session only as `Evolves` allows. */
  lemma {:induction false} RunEvolves(s: Db, ops: seq<Op>, env: Env)
    requires KeepsUpgrader(ops)
    ensures Evolves(s, Run(s, ops, env))
    decreases |ops|
  {
    if ops != [] {
      var t := Step(s, ops[0], env);
      StepEvolves(s, ops[0], env);
      assert KeepsUpgrader(ops[1..]) by {
        forall i | 0 <= i < |ops[1..]| ensures !ops[1..][i].SetUpgraderOp? {
          assert ops[1..][i] == ops[i + 1];
        }
      }
      RunEvolves(t, ops[1..], env);
      EvolvesTransitive(s, t, Run(t, ops[1..], env));
    }
  }

  /**
   * While the upgrader is kept, each guard class enters the checked set at
   * most once over the whole run, and never when it was already checked at
   * the start: every upgrade check runs at most once.
   */
  lemma ChecksRunAtMostOnce(s: Db, ops: seq<Op>, env: Env, k: ClassId)
    requires KeepsUpgrader(ops)
    ensures Guards(Run(s, ops, env).trace)[k] <= Guards(s.trace)[k] + (if k in s.checked then 0 else 1)
  {
    RunEvolves(s, ops, env);
  }

  /**
   * While the upgrader is kept, the check guarded by class `k` makes at most
   * one hook call over the whole run, and none when `k` was already checked
   * at the start.  For a table check `k` is the model class, so each model
   * class leads to at most one `upgradeTable` call.
   */
  lemma HookCallsAtMostOncePerCheck(s: Db, ops: seq<Op>, env: Env, k: ClassId)
    requires KeepsUpgrader(ops)
    ensures CallsBy(Run(s, ops, env).trace)[k] <= CallsBy(s.trace)[k] + (if k in s.checked then 0 else 1)
  {
    RunEvolves(s, ops, env);
  }

  /**
   * While the upgrader is kept, `upgradeDatabase` is called at most once over
   * the whole run, and not at all when the database check had already run.
   */
  lemma DatabaseHookAtMostOnce(s: Db, ops: seq<Op>, env: Env)
    requires KeepsUpgrader(ops)
    ensures DatabaseInvocations(Run(s, ops, env).trace) <= DatabaseInvocations(s.trace) + Pending(s)
    ensures s.upgrader.cls in s.checked ==> DatabaseInvocations(Run(s, ops, env).trace) == DatabaseInvocations(s.trace)
  {
    RunEvolves(s, ops, env);
    var r := Run(s, ops, env);
    assert r.trace == s.trace + r.trace[|s.trace|..];
    TraceAppend(s.trace, r.trace[|s.trace|..]);
  }

  lemma StepNeverDecreases(s: Db, op: Op, env: Env)
    ensures NeverDecreases(s.records, Step(s, op, env).records)
    ensures Step(s, op, env).dialect == s.dialect
  {
  }

  /**
   * No sequence of operations, failed upgrades and upgrader replacements
   * included, lowers or removes a version row or changes the session's
   * dialect.
   */
  lemma {:induction false} RunNeverDecreases(s: Db, ops: seq<Op>, env: Env)
    ensures NeverDecreases(s.records, Run(s, ops, env).records)
    ensures Run(s, ops, env).dialect == s.dialect
    decreases |ops|
  {
    if ops != [] {
      var t := Step(s, ops[0], env);
      StepNeverDecreases(s, ops[0], env);
      RunNeverDecreases(t, ops[1..], env);
    }
  }

  /** A session whose upgrader declares `version`, before any definition is looked up. */
  function Fresh(reg: Registry, connClass: string, records: Records, upgrader: ClassId, version: int): Db {
    Open(reg, connClass, records).(upgrader := Upgrader(upgrader, version))
  }

  /**
   * No database row and a declared version: the first definition looked up
   * inserts the row with that version, and the hook is never called.
   */
  lemma FirstDefineInsertsDatabaseRow(reg: Registry, connClass: string, records: Records,
                                      upgrader: ClassId, version: int, c: ClassId, env: Env)
    requires DatabaseKey !in records && version > 0
    ensures var r := Define(Fresh(reg, connClass, records, upgrader, version), c, env).0;
            && DatabaseKey in r.records && r.records[DatabaseKey] == version
            && Invocations(r.trace) == []
  {
    var s := Fresh(reg, connClass, records, upgrader, version);
    UpgradeDbTransitions(s, env);
  }

  /**
   * A database row older than the declared version and a hook that
   * succeeds: the hook is called once with (stored, declared) and the row is
   * brought to the declared version.
   */
  lemma FirstDefineUpgradesDatabase(reg: Registry, connClass: string, records: Records,
                                    upgrader: ClassId, version: int, c: ClassId, env: Env)
    requires version > 0 && DatabaseKey in records && records[DatabaseKey] < version
    requires env.hook(HookCall(upgrader, Database, records[DatabaseKey], version))
    ensures var r := Define(Fresh(reg, connClass, records, upgrader, version), c, env).0;
            && r.records[DatabaseKey] == version
            && Invocations(r.trace) == [HookCall(upgrader, Database, records[DatabaseKey], version)]
  {
    var s := Fresh(reg, connClass, records, upgrader, version);
    UpgradeDbTransitions(s, env);
  }

  /**
   * The same with a hook that fails: the row keeps its version, a second
   * definition in the same session does not call the hook again, and the
   * first definition in a new session over the same rows calls it again
   * with the same versions.
   */
  lemma FailedUpgradeWaitsForNextSession(reg: Registry, connClass: string, records: Records,
                                         upgrader: ClassId, version: int, c1: ClassId, c2: ClassId, c3: ClassId,
                                         env: Env)
    requires version > 0 && DatabaseKey in records && records[DatabaseKey] < version
    requires !env.hook(HookCall(upgrader, Database, records[DatabaseKey], version))
    ensures var r1 := Define(Fresh(reg, connClass, records, upgrader, version), c1, env).0;
            var r2 := Define(r1, c2, env).0;
            var r3 := Define(Fresh(reg, connClass, r2.records, upgrader, version), c3, env).0;
            && r2.records[DatabaseKey] == records[DatabaseKey]
            && Invocations(r2.trace) == [HookCall(upgrader, Database, records[DatabaseKey], version)]
            && Invocations(r3.trace) == [HookCall(upgrader, Database, records[DatabaseKey], version)]
  {
    var s := Fresh(reg, connClass, records, upgrader, version);
    UpgradeDbTransitions(s, env);
    var r2 := Define(Define(s, c1, env).0, c2, env).0;
    UpgradeDbTransitions(Fresh(reg, connClass, r2.records, upgrader, version), env);
  }
}
