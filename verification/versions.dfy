/**
 * The version store and the one version-check step that both the
 * database-level and the table-level upgrade share.
 *
 * The store stands for the `DbVersion` table: one row per (schema, table)
 * pair holding an integer version, with ("", "") reserved for the whole
 * database.  Everything a check does that can be observed from outside the
 * session (a store read, an insert, an update, an upgrade-hook call, and the
 * moment a class enters the "checked" guard set) is recorded as an `Event`.
 */
module Versions {

  /** A Java `Class` identity, by its name. */
  type ClassId = string

  /** The key of a version row. */
  datatype VersionKey = VersionKey(schema: string, table: string)

  /** The key of the whole-database row. */
  const DatabaseKey: VersionKey := VersionKey("", "")

  /** What a version check is about. */
  datatype Target = Database | Table(schema: string, table: string)

  function KeyOf(t: Target): VersionKey {
    match t
    case Database => DatabaseKey
    case Table(schema, table) => VersionKey(schema, table)
  }

  /**
   * One invocation of the upgrader's `upgradeDatabase` (target `Database`) or
   * `upgradeTable` (target `Table`) hook.
   */
  datatype HookCall = HookCall(upgrader: ClassId, target: Target, fromVersion: int, toVersion: int)

  datatype Event =
    | Checking(guard: ClassId)
    | ReadVersion(key: VersionKey)
    | InsertVersion(key: VersionKey, version: int)
    | UpdateVersion(key: VersionKey, version: int)
    | Invoke(call: HookCall, guard: ClassId)  // made by the check guarded by `guard`

  /** The version rows, as stored. */
  type Records = map<VersionKey, int>

  /** No row disappears and no row's version goes down. */
  ghost predicate NeverDecreases(before: Records, after: Records) {
    forall k :: k in before ==> k in after && before[k] <= after[k]
  }

  /** The classes that entered the guard set, with multiplicity. */
  function Guards(t: seq<Event>): multiset<ClassId> {
    if t == [] then multiset{}
    else (if t[0].Checking? then multiset{t[0].guard} else multiset{}) + Guards(t[1..])
  }

  /** The hook invocations, in order. */
  function Invocations(t: seq<Event>): seq<HookCall> {
    if t == [] then []
    else (if t[0].Invoke? then [t[0].call] else []) + Invocations(t[1..])
  }

  /** The guard classes of the checks that made hook invocations, with multiplicity. */
  function CallsBy(t: seq<Event>): multiset<ClassId> {
    if t == [] then multiset{}
    else (if t[0].Invoke? then multiset{t[0].guard} else multiset{}) + CallsBy(t[1..])
  }

  /** How many store reads and writes were made. */
  function StoreAccesses(t: seq<Event>): nat {
    if t == [] then 0
    else (if t[0].Checking? || t[0].Invoke? then 0 else 1) + StoreAccesses(t[1..])
  }

  /** How many hook invocations are database upgrades. */
  function DatabaseCalls(calls: seq<HookCall>): nat {
    if calls == [] then 0
    else (if calls[0].target.Database? then 1 else 0) + DatabaseCalls(calls[1..])
  }

  function DatabaseInvocations(t: seq<Event>): nat {
    DatabaseCalls(Invocations(t))
  }

  /** The table upgrade calls among `calls`, in order. */
  function TableCalls(calls: seq<HookCall>): seq<HookCall> {
    if calls == [] then []
    else (if calls[0].target.Table? then [calls[0]] else []) + TableCalls(calls[1..])
  }

  function TableInvocations(t: seq<Event>): seq<HookCall> {
    TableCalls(Invocations(t))
  }

  /** `after` is `before`, or `before` followed by one call for `target`. */
  predicate AddsAtMostOne(before: seq<HookCall>, after: seq<HookCall>, target: Target) {
    || after == before
    || (&& |after| == |before| + 1
        && after[..|before|] == before
        && after[|before|].target == target)
  }

  lemma {:induction false} GuardsAppend(a: seq<Event>, b: seq<Event>)
    ensures Guards(a + b) == Guards(a) + Guards(b)
  {
    if a != [] {
      assert (a + b)[1..] == a[1..] + b;
      GuardsAppend(a[1..], b);
    } else {
      assert a + b == b;
    }
  }

  lemma {:induction false} InvocationsAppend(a: seq<Event>, b: seq<Event>)
    ensures Invocations(a + b) == Invocations(a) + Invocations(b)
  {
    if a != [] {
      assert (a + b)[1..] == a[1..] + b;
      InvocationsAppend(a[1..], b);
    } else {
      assert a + b == b;
    }
  }

  lemma {:induction false} CallsByAppend(a: seq<Event>, b: seq<Event>)
    ensures CallsBy(a + b) == CallsBy(a) + CallsBy(b)
  {
    if a != [] {
      assert (a + b)[1..] == a[1..] + b;
      CallsByAppend(a[1..], b);
    } else {
      assert a + b == b;
    }
  }

  lemma {:induction false} TableCallsAppend(a: seq<HookCall>, b: seq<HookCall>)
    ensures TableCalls(a + b) == TableCalls(a) + TableCalls(b)
  {
    if a != [] {
      assert (a + b)[1..] == a[1..] + b;
      TableCallsAppend(a[1..], b);
    } else {
      assert a + b == b;
    }
  }

  lemma {:induction false} StoreAccessesAppend(a: seq<Event>, b: seq<Event>)
    ensures StoreAccesses(a + b) == StoreAccesses(a) + StoreAccesses(b)
  {
    if a != [] {
      assert (a + b)[1..] == a[1..] + b;
      StoreAccessesAppend(a[1..], b);
    } else {
      assert a + b == b;
    }
  }

  lemma {:induction false} DatabaseCallsAppend(a: seq<HookCall>, b: seq<HookCall>)
    ensures DatabaseCalls(a + b) == DatabaseCalls(a) + DatabaseCalls(b)
  {
    if a != [] {
      assert (a + b)[1..] == a[1..] + b;
      DatabaseCallsAppend(a[1..], b);
    } else {
      assert a + b == b;
    }
  }

  /** Appending events adds their guards, store accesses and hook invocations. */
  lemma TraceAppend(a: seq<Event>, b: seq<Event>)
    ensures Guards(a + b) == Guards(a) + Guards(b)
    ensures StoreAccesses(a + b) == StoreAccesses(a) + StoreAccesses(b)
    ensures Invocations(a + b) == Invocations(a) + Invocations(b)
    ensures DatabaseInvocations(a + b) == DatabaseInvocations(a) + DatabaseInvocations(b)
  {
    GuardsAppend(a, b);
    StoreAccessesAppend(a, b);
    InvocationsAppend(a, b);
    DatabaseCallsAppend(Invocations(a), Invocations(b));
  }

  /** Appending events adds the guards behind their hook calls and their table calls. */
  lemma CallsAppend(a: seq<Event>, b: seq<Event>)
    ensures CallsBy(a + b) == CallsBy(a) + CallsBy(b)
    ensures TableInvocations(a + b) == TableInvocations(a) + TableInvocations(b)
  {
    CallsByAppend(a, b);
    InvocationsAppend(a, b);
    TableCallsAppend(Invocations(a), Invocations(b));
  }

  /** Recording that `g` enters the guard set adds `g` to the guards and nothing else. */
  lemma AppendChecking(t: seq<Event>, g: ClassId)
    ensures Guards(t + [Checking(g)]) == Guards(t) + multiset{g}
    ensures CallsBy(t + [Checking(g)]) == CallsBy(t)
    ensures StoreAccesses(t + [Checking(g)]) == StoreAccesses(t)
    ensures Invocations(t + [Checking(g)]) == Invocations(t)
    ensures DatabaseInvocations(t + [Checking(g)]) == DatabaseInvocations(t)
    ensures TableInvocations(t + [Checking(g)]) == TableInvocations(t)
  {
    TraceAppend(t, [Checking(g)]);
    CallsAppend(t, [Checking(g)]);
    assert Invocations([Checking(g)]) == [];
  }

  /** Events that are only store reads and writes add no guard and no hook call. */
  lemma {:induction false} StoreAccessesOnly(t: seq<Event>)
    requires forall i :: 0 <= i < |t| ==> t[i].ReadVersion? || t[i].InsertVersion? || t[i].UpdateVersion?
    ensures Guards(t) == multiset{} && CallsBy(t) == multiset{} && Invocations(t) == []
    ensures DatabaseInvocations(t) == 0 && TableInvocations(t) == []
  {
    if t != [] {
      StoreAccessesOnly(t[1..]);
    }
  }

  /**
   * The body of a version check once the guard has been passed and the
   * declared version is positive: read the row for the target; insert the
   * declared version when there is none; when the stored version is lower,
   * call the hook with (stored, declared) and write the declared version only
   * if the hook reports success; otherwise do nothing.  Returns the new rows
   * and the events performed.
   */
  function VersionStep(records: Records, upgrader: ClassId, guard: ClassId, target: Target, declared: int,
                       hook: HookCall -> bool): (r: (Records, seq<Event>))
    ensures NeverDecreases(records, r.0)
    ensures forall k :: k != KeyOf(target) ==> (k in r.0 <==> k in records)
    ensures forall k :: k != KeyOf(target) && k in records ==> r.0[k] == records[k]
    ensures KeyOf(target) in r.0
    ensures |r.1| > 0 && r.1[0] == ReadVersion(KeyOf(target))
  {
    var key := KeyOf(target);
    var read := [ReadVersion(key)];
    if key !in records then
      (records[key := declared], read + [InsertVersion(key, declared)])
    else if declared > records[key] then
      var call := HookCall(upgrader, target, records[key], declared);
      if hook(call) then
        (records[key := declared], read + [Invoke(call, guard)] + [UpdateVersion(key, declared)])
      else
        (records, read + [Invoke(call, guard)])
    else
      (records, read)
  }

  /**
   * The three outcomes of a version check: a missing row is inserted with
   * the declared version and no hook is called; a lower stored version makes
   * exactly one hook call with (stored, declared) and the row takes the
   * declared version exactly when the hook succeeds; a stored version at or
   * above the declared one changes nothing and calls nothing.  No outcome
   * touches the guard set.
   */
  lemma VersionStepOutcomes(records: Records, upgrader: ClassId, guard: ClassId, target: Target, declared: int,
                            hook: HookCall -> bool)
    ensures var r := VersionStep(records, upgrader, guard, target, declared, hook);
            var key := KeyOf(target);
            && Guards(r.1) == multiset{}
            && (key !in records ==> r.0[key] == declared && Invocations(r.1) == [])
            && (key in records && records[key] < declared ==>
                  var call := HookCall(upgrader, target, records[key], declared);
                  && Invocations(r.1) == [call]
                  && r.0[key] == (if hook(call) then declared else records[key]))
            && (key in records && declared <= records[key] ==>
                  r.0 == records && Invocations(r.1) == [])
  {
    var key := KeyOf(target);
    var read := [ReadVersion(key)];
    var r := VersionStep(records, upgrader, guard, target, declared, hook);
    StoreAccessesOnly(read);
    if key !in records {
      StoreAccessesOnly(read + [InsertVersion(key, declared)]);
    } else if declared > records[key] {
      var call := HookCall(upgrader, target, records[key], declared);
      var invoke := [Invoke(call, guard)];
      assert Invocations(invoke) == [call] && Guards(invoke) == multiset{};
      TraceAppend(read, invoke);
      if hook(call) {
        var update := [UpdateVersion(key, declared)];
        StoreAccessesOnly(update);
        TraceAppend(read + invoke, update);
        assert r.1 == read + invoke + update;
      } else {
        assert r.1 == read + invoke;
      }
      assert Invocations(r.1) == [call];
    }
  }

  /** A version check never issues more than one hook call, and only for its own target. */
  lemma VersionStepCallsOnce(records: Records, upgrader: ClassId, guard: ClassId, target: Target, declared: int,
                             hook: HookCall -> bool)
    ensures var r := VersionStep(records, upgrader, guard, target, declared, hook);
            && |Invocations(r.1)| <= 1
            && (forall i :: 0 <= i < |Invocations(r.1)| ==> Invocations(r.1)[i].target == target)
            && DatabaseInvocations(r.1) <= (if target.Database? then 1 else 0)
            && CallsBy(r.1) <= multiset{guard}
            && (target.Database? ==> TableInvocations(r.1) == [])
            && (target.Table? ==> TableInvocations(r.1) == Invocations(r.1))
  {
    VersionStepOutcomes(records, upgrader, guard, target, declared, hook);
    var r := VersionStep(records, upgrader, guard, target, declared, hook);
    VersionStepCallsBy(records, upgrader, guard, target, declared, hook);
    var inv := Invocations(r.1);
    if inv != [] {
      assert inv[1..] == [];
      assert DatabaseCalls(inv) == (if inv[0].target.Database? then 1 else 0) + DatabaseCalls(inv[1..]);
      assert TableCalls(inv) == (if inv[0].target.Table? then [inv[0]] else []) + TableCalls(inv[1..]);
    }
    assert DatabaseInvocations(r.1) == DatabaseCalls(inv);
  }

  /** The only hook call a version check can make is charged to its guard. */
  lemma VersionStepCallsBy(records: Records, upgrader: ClassId, guard: ClassId, target: Target, declared: int,
                           hook: HookCall -> bool)
    ensures var r := VersionStep(records, upgrader, guard, target, declared, hook);
            CallsBy(r.1) == (if Invocations(r.1) == [] then multiset{} else multiset{guard})
  {
    var key := KeyOf(target);
    var t := VersionStep(records, upgrader, guard, target, declared, hook).1;
    if key in records && declared > records[key] {
      var call := HookCall(upgrader, target, records[key], declared);
      var invoke := [Invoke(call, guard)];
      assert CallsBy(invoke) == multiset{guard} && Invocations(invoke) == [call];
      StoreAccessesOnly([ReadVersion(key)]);
      CallsAppend([ReadVersion(key)], invoke);
      InvocationsAppend([ReadVersion(key)], invoke);
      if hook(call) {
        StoreAccessesOnly([UpdateVersion(key, declared)]);
        CallsAppend([ReadVersion(key)] + invoke, [UpdateVersion(key, declared)]);
        InvocationsAppend([ReadVersion(key)] + invoke, [UpdateVersion(key, declared)]);
      }
    } else {
      StoreAccessesOnly(t);
    }
  }
}
