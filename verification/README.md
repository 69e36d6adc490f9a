# iciql `Db` session core, modelled in Dafny

This project models the decision logic of iciql's `Db` class, the object
that owns one JDBC connection. Three parts are covered:

- **Dialect resolution** (`Dialects`). The registry maps connection class
  names and package prefixes to dialect classes. Resolution tries the full
  class name first. It then tries every prefix that ends just before a `.`,
  scanning from the left, so the shortest prefix is tried first (`org`, then
  `org.h2`, and so on). If nothing matches, the result is
  `DefaultSQLDialect`. `GetDialect` is the source's `while` loop.
  `Resolve` is its pure counterpart. Predicates say declaratively which
  binding must win.
- **Version upgrades** (`Versions`, `DbSession`). The version store is a map
  from (schema, table) to an integer. The key ("", "") is the database row.
  The guard set holds the classes already checked: the upgrader's class for
  the database check, and the model class for a table check. `VersionStep`
  is the check body shared by both levels. The upgrade hook's boolean answer
  comes from a parameter (`Env.hook`). Every store read and write, every
  hook call and every guard insertion is recorded in the session's `trace`.
  This makes "nothing was read, written or called" observable.
- **Table definition cache and merge gate** (`DbSession`). `Define` and
  `UpgradeDb` are mutually recursive, as in the source. On a cache miss,
  `Define` runs the database check. That check reads its row through
  `Define` of `DbVersion`, and the inner call finds the guard already set.
  The termination measure of the pair is that guard. `Merge` fails before
  any lookup when the dialect cannot merge.
- **Token registry** (`Tokens`). This is a map keyed by an object's identity
  tag, not by its value.

`Runs` chains operations into runs and proves four facts over whole runs.
While the upgrader is not replaced, each check runs at most once, each
check makes at most one hook call, and `upgradeDatabase` is called at most
once. No version row ever decreases. Failed upgrades and upgrader
replacements are included in that last fact.

Some behaviours of the code are easy to misread. The model states them as
the code has them:

- Package prefixes are tried from the left, so a binding for `org` beats
  one for `org.h2` (`Dialects.RootPackageShadowsH2`).
- `define` never calls `upgradeTable`. The table-level check is a separate
  operation (`DbSession.UpgradeTable`).
- Defining `DbVersion` first builds two definitions when the session's
  database check is due and the upgrader declares a positive version. The
  inner one is overwritten in the cache
  (`DbSession.DbVersionFirstBuildsTwice`).
- A failed upgrade does not stop the operation that triggered it. The stored
  version stays as it was, and the first definition in the next session
  calls the hook again (`Runs.FailedUpgradeWaitsForNextSession`).

## Model

| member | source | states |
|---|---|---|
| `Dialects.RegisterDialect` | src/com/iciql/Db.java:81-87 | registering binds the name to the dialect and leaves every other binding as it was |
| `Dialects.IndexOf` | src/com/iciql/Db.java:95 | the search finds the first `.` at or after the start position, or returns -1 when there is none |
| `Dialects.ScanPackages` | src/com/iciql/Db.java:92-103 | from a search position on, the leftmost registered package prefix wins; with none registered the result is `DefaultSQLDialect`; the result is always the default or a registered dialect |
| `Dialects.Resolve` | src/com/iciql/Db.java:89-103 | an exact binding for the class name wins over every package prefix; otherwise the leftmost registered prefix wins; otherwise the result is `DefaultSQLDialect` |
| `Dialects.GetDialect` | src/com/iciql/Db.java:89-104 | the lookup loop, with `lastDot` moving strictly right, terminates and returns exactly the dialect `Resolve` selects |
| `Dialects.FirstRegisteredPackageExists` | src/com/iciql/Db.java:92-103 | if any package prefix is registered, a leftmost registered one exists, so the default is only returned when none is |
| `Dialects.ShorterPrefixWins` | src/com/iciql/Db.java:92-99 | whenever a package prefix of an unregistered name is registered, the result is the binding of the leftmost registered prefix, which is that prefix or a shorter one, whatever the registration order |
| `Dialects.RegisteredNameResolves` | src/com/iciql/Db.java:85-91 | after registering a full class name, that name resolves to the registered dialect |
| `Dialects.RootPackageShadowsH2` | src/com/iciql/Db.java:69-99 | registering a dialect for `org` takes H2 connections away from the built-in `org.h2` binding |
| `Dialects.H2ConnectionResolves` | src/com/iciql/Db.java:69-103 | with only the built-in registry, `org.h2.jdbc.JdbcConnection` resolves to `H2Dialect` |
| `Versions.VersionStep` | src/com/iciql/Db.java:236-254 | the check body reads the target's row first; it can change only that row and never lowers or removes a row |
| `Versions.VersionStepOutcomes` | src/com/iciql/Db.java:273-290 | missing row: inserted with the declared version, no hook call; lower stored version: exactly one hook call with (stored, declared), and the row takes the declared version exactly when the hook succeeds; otherwise nothing changes |
| `Versions.VersionStepCallsOnce` | src/com/iciql/Db.java:247-254 | one check makes at most one hook call, only for its own target, and charges it to the check's guard class; a database check makes no table call and a table check no database call |
| `Versions.VersionStepCallsBy` | src/com/iciql/Db.java:283-286 | the hook call of a check, when there is one, is charged to the check's guard class and to nothing else |
| `DbSession.Open` | src/com/iciql/Db.java:75-79 | a new session takes its dialect from resolving the connection class, starts with the default upgrader, and has an empty guard set and an empty cache |
| `DbSession.GetTableDefinition` | src/com/iciql/Db.java:384-386 | the lookup finds a definition exactly when the class is cached, and then it is the cached one |
| `DbSession.Define` | src/com/iciql/Db.java:297-316 | a cache hit returns the cached definition and changes nothing, with no upgrade check; a miss first runs the database check, then builds a new definition from the mapper, and afterwards the cache maps the class to it; no class other than this one and `DbVersion` enters the cache, only the database row can change, and no `upgradeTable` call is made |
| `DbSession.DefineTwiceSameDefinition` | src/com/iciql/Db.java:297-299 | asking again for a class returns the same definition object and changes nothing |
| `DbSession.UpgradeDb` | src/com/iciql/Db.java:228-260 | once the upgrader's class is in the guard set, the check does nothing at all; otherwise it adds the class; with a declared version of 0 or less, no row is read or written and no hook is called; only the database row can change, only `DbVersion` can enter the cache, and no `upgradeTable` call is made |
| `DbSession.DatabaseVersionCheck` | src/com/iciql/Db.java:233-256 | the database check past its guard leaves the guard set as it is, makes at most one `upgradeDatabase` call, charged to the upgrader's class, changes only the database row, and adds at most `DbVersion` to the cache |
| `DbSession.UpgradeDbTransitions` | src/com/iciql/Db.java:229-256 | the guard is recorded before the database row is read; a missing row is inserted with the declared version and no hook call; a lower version makes one `upgradeDatabase(stored, declared)` call and is updated exactly when the call succeeds; an up-to-date row is left alone |
| `DbSession.UpgradeTable` | src/com/iciql/Db.java:262-295 | once the model class is in the guard set, the check does nothing; otherwise it adds the class; with a table version of 0 or less, no row is read or written and no hook is called; only the table's own row and the database row can change; at most one `upgradeTable` call is added, and it is for this table |
| `DbSession.TableVersionCheck` | src/com/iciql/Db.java:267-292 | the table check past its guard adds at most the upgrader's class to the guard set, charges every hook call it makes to the model class (at most one) or to a class it newly checks, changes only the table row and the database row, and adds at most one `upgradeTable` call, for this table |
| `DbSession.TableVersionCheckOutcomes` | src/com/iciql/Db.java:267-290 | past the guard: a missing table row is inserted with the declared version; a lower stored version makes one `upgradeTable(schema, table, stored, declared)` call, made last, and the row is updated exactly when it succeeds; an up-to-date row is kept |
| `DbSession.UpgradeTableTransitions` | src/com/iciql/Db.java:263-292 | the guard is recorded first; a missing table row is inserted with the declared version; a lower version makes one `upgradeTable(schema, table, stored, declared)` call, made last, and the row is updated exactly when it succeeds; with the database check already done, nothing else happens |
| `DbSession.DbVersionFirstBuildsTwice` | src/com/iciql/Db.java:297-303 | defining `DbVersion` first while the database check is due and the upgrader declares a positive version builds two definitions; the cache keeps the second |
| `DbSession.SchemaOf` | src/com/iciql/Db.java:270 | the schema used for the lookup is empty exactly when the definition's schema name is missing or empty, and is that name otherwise |
| `DbSession.SetDbUpgrader` | src/com/iciql/Db.java:318-324 | an upgrader without a version annotation is refused with the source's message, and the session is unchanged; otherwise it replaces the upgrader and empties the guard set, with nothing else changed |
| `DbSession.Merge` | src/com/iciql/Db.java:188-194 | merge fails with the source's message exactly when the dialect lacks merge support, and then touches nothing; otherwise it yields the class's definition |
| `Runs.RunEvolves` | src/com/iciql/Db.java:228-316 | over any run that keeps its upgrader, the dialect and the upgrader stay fixed, the guard set and cache only grow, and each newly checked class is recorded once |
| `Runs.ChecksRunAtMostOnce` | src/com/iciql/Db.java:229-231 | while the upgrader is kept, each guard class enters the guard set at most once over a run, and never if it was already checked |
| `Runs.HookCallsAtMostOncePerCheck` | src/com/iciql/Db.java:262-290 | while the upgrader is kept, the check guarded by a class makes at most one hook call over a run, and none if the class was already checked; for tables this bounds `upgradeTable` calls to one per model class |
| `Runs.DatabaseHookAtMostOnce` | src/com/iciql/Db.java:229-254 | while the upgrader is kept, `upgradeDatabase` is called at most once per run, and never once the database check has run |
| `Runs.RunNeverDecreases` | src/com/iciql/Db.java:247-290 | no run of operations removes a version row or lowers its version, and none changes the session's dialect |
| `Runs.FirstDefineInsertsDatabaseRow` | src/com/iciql/Db.java:236-243 | with no database row, the first define inserts ("", "") with the declared version and calls no hook |
| `Runs.FirstDefineUpgradesDatabase` | src/com/iciql/Db.java:247-254 | with an older row and a succeeding hook, the hook is called once with (stored, declared) and the row reaches the declared version |
| `Runs.FailedUpgradeWaitsForNextSession` | src/com/iciql/Db.java:228-256 | with a failing hook, the row keeps its version, a second define does not call the hook again, and the first define in a new session over the same rows calls it again with the same versions |
| `Tokens.RegisterToken` | src/com/iciql/Db.java:107-110 | registering returns the value unchanged, binds its identity to the token, and keeps every other binding |
| `Tokens.GetToken` | src/com/iciql/Db.java:112-114 | the lookup yields a token exactly when the object's identity is registered, and then the registered token |
| `Tokens.GetAfterRegister` | src/com/iciql/Db.java:107-114 | a lookup right after registering returns the registered token |
| `Tokens.RegisterKeepsOthers` | src/com/iciql/Db.java:69-70 | registering one object leaves every other identity's lookup as it was |
| `Tokens.EqualValueIsNotEnough` | src/com/iciql/Db.java:69-70 | registering one object gives no token to a different, unregistered object, even one equal to it in value |

## Left out

- Connection acquisition (`open`), `close`, `prepare`, `executeQuery`, `executeUpdate` and `buildObjects` are left out: they are JDBC I/O.
- `insert`, `update`, `delete`, `from`, `insertAll`, `updateAll` and `deleteAll` are left out: each is `Define` followed by out-of-scope table or query code.
- Definition building (`mapFields`, `Define.define`, `mapObject`, `createTableIfRequired`) is the `Env.mapper` parameter. Only the schema, table and declared version it yields are modelled.
- Reflection is replaced by values. The dialect is returned as a class and not instantiated, so `instance` failures and `configureDialect` are not modelled. Declared versions are plain integers. A missing `IQVersion` annotation is `None`.
- `DbUpgrader.java` and `DbVersion.java` are not part of this model. The default upgrader is taken to declare version 0. A new `DbVersion` row is taken to have schema "" and table "".
- `DbSession.UpgradeTable` looks rows up by exact key. The source's SQL `LIKE` match on schema and table (line 271) is not modelled, so wildcard characters in names are not modelled either.
- Whatever the upgrade hook itself does to the session is not modelled. The hook receives the `Db` object, but only its boolean answer is used.
- Exceptions inside the checks and inside `define` are not modelled: the upgrade hooks (lines 249-250 and 285-286), the version-row reads and writes (lines 238, 243, 253, 271-272, 279 and 289) and `instance` (lines 305 and 311) are taken never to throw. In the source each of these throws comes after the guard class was added (lines 231 and 265), so a check that throws is not retried in that session. A throw from `instance` also comes after `classMap.put` (line 303), so the half-built definition stays cached and the next `define` of that class returns it without error.
- Concurrency is not modelled. The model is sequential. `define` is a non-atomic check-then-act (lines 298-303), so two threads can both miss and both build. No thread-safety is claimed.
- Weak references are not modelled. `TOKENS` entries are never collected here.
- A `null` dialect class registered through `registerDialect` is not modelled, and neither is a `null` canonical class name.
- The `dbUpgrader != null` conditions (lines 247 and 283) are left out: they are always true. The field starts non-null (line 66), and `setDbUpgrader` dereferences its argument (line 319) before assigning it (line 322).
- `setDbUpgrader(null)` is not modelled. It throws a `NullPointerException` at line 319 before anything changes; `DbSession.SetDbUpgrader` always receives a class.
- `DbSession.UpgradeTableTransitions`: does not cover a table whose schema and name are both empty. That row is the database row, so the nested database check may already have written it.
- `DbSession.UpgradeTableTransitions`: gives the exact hook-call list only when the database check has already run. Otherwise it states that the table call comes last.
- `DbSession.TableVersionCheckOutcomes`: does not cover a table whose schema and name are both empty, for the same reason: its row is the database row, which the nested database check may already have written.
- `DbSession.TableVersionCheckOutcomes`: gives the exact hook-call list only when the database check has already run. Otherwise it states that the table call comes last; the calls made before it are bounded by `DbSession.TableVersionCheck`.
