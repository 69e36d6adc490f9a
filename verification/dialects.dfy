/**
 * Dialect resolution: which SQL dialect class a connection gets, looked up
 * in the process-wide registry by the connection's class name.
 *
 * The exact class name is tried first.  Failing that, every package prefix
 * (the part of the name before a `.`) is tried from the LEFT, so the
 * shortest prefix is consulted first: for `org.h2.jdbc.JdbcConnection` the
 * order is `org`, `org.h2`, `org.h2.jdbc`.  When nothing matches, the
 * result is `DefaultSQLDialect`.
 */
module Dialects {
  import opened Wrappers

  /** The dialect classes; `Custom` stands for any class a caller registers. */
  datatype DialectClass = DefaultSQLDialect | H2Dialect | Custom(name: string)

  /** The registry, keyed by connection class name or package prefix. */
  type Registry = map<string, DialectClass>

  /** The registry as the static initializer leaves it. */
  const InitialRegistry: Registry := map["org.h2" := H2Dialect]

  /** Adds or overwrites one binding; every other binding is kept. */
  function RegisterDialect(reg: Registry, connClass: string, dialect: DialectClass): (r: Registry)
    ensures connClass in r && r[connClass] == dialect
    ensures forall k :: k != connClass ==> (k in r <==> k in reg)
    ensures forall k :: k != connClass && k in reg ==> r[k] == reg[k]
  {
    reg[connClass := dialect]
  }

  /**
   * Java's `String.indexOf(char, fromIndex)`: the first position at or after
   * `from` holding `c`, or -1.
   */
  function IndexOf(s: string, c: char, from: nat): (r: int)
    decreases |s| - from
    ensures r == -1 || from <= r < |s|
    ensures r != -1 ==> s[r] == c && forall j :: from <= j < r ==> s[j] != c
    ensures r == -1 ==> forall j :: from <= j < |s| ==> s[j] != c
  {
    if from >= |s| then -1
    else if s[from] == c then from
    else IndexOf(s, c, from + 1)
  }

  /** Position `i` ends a package prefix: it holds a dot. */
  predicate IsPackageEnd(s: string, i: int) {
    0 <= i < |s| && s[i] == '.'
  }

  /** No package prefix ending at a dot at or after `from` is registered. */
  ghost predicate NoRegisteredPackageFrom(reg: Registry, s: string, from: int) {
    forall j :: from <= j && IsPackageEnd(s, j) ==> s[..j] !in reg
  }

  /**
   * The prefix ending at dot `i` is registered, and it is the leftmost
   * registered one among the dots at or after `from`.
   */
  ghost predicate FirstRegisteredPackageFrom(reg: Registry, s: string, from: int, i: int) {
    && from <= i
    && IsPackageEnd(s, i)
    && s[..i] in reg
    && forall j :: from <= j < i && IsPackageEnd(s, j) ==> s[..j] !in reg
  }

  /** The package-name part of the lookup, from the dot search position `lastDot` on. */
  function ScanPackages(reg: Registry, s: string, lastDot: nat): (d: DialectClass)
    requires lastDot <= |s|
    decreases |s| - lastDot
    ensures forall i :: FirstRegisteredPackageFrom(reg, s, lastDot, i) ==> d == reg[s[..i]]
    ensures NoRegisteredPackageFrom(reg, s, lastDot) ==> d == DefaultSQLDialect
    ensures d == DefaultSQLDialect || d in reg.Values
  {
    var nextDot := IndexOf(s, '.', lastDot);
    if nextDot > -1 then
      var pkg := s[..nextDot];
      if pkg in reg then reg[pkg] else ScanPackages(reg, s, nextDot + 1)
    else
      DefaultSQLDialect
  }

  /** The dialect class the registry selects for connection class name `s`. */
  function Resolve(reg: Registry, s: string): (d: DialectClass)
    ensures s in reg ==> d == reg[s]
    ensures s !in reg ==> forall i :: FirstRegisteredPackageFrom(reg, s, 0, i) ==> d == reg[s[..i]]
    ensures s !in reg && NoRegisteredPackageFrom(reg, s, 0) ==> d == DefaultSQLDialect
    ensures d == DefaultSQLDialect || d in reg.Values
  {
    if s in reg then reg[s] else ScanPackages(reg, s, 0)
  }

  /** The lookup loop as the session constructor runs it; `None` is Java's `null`. */
  method GetDialect(reg: Registry, clazz: string) returns (d: DialectClass)
    ensures d == Resolve(reg, clazz)
  {
    var dialectClass: Option<DialectClass> := if clazz in reg then Some(reg[clazz]) else None;
    var lastDot: nat := 0;
    while dialectClass.None?
      invariant lastDot <= |clazz|
      invariant dialectClass.None? ==> Resolve(reg, clazz) == ScanPackages(reg, clazz, lastDot)
      invariant dialectClass.Some? ==> dialectClass.value == Resolve(reg, clazz)
      decreases if dialectClass.None? then 1 else 0, |clazz| - lastDot
    {
      var nextDot := IndexOf(clazz, '.', lastDot);
      if nextDot > -1 {
        var pkg := clazz[..nextDot];
        lastDot := nextDot + 1;
        dialectClass := if pkg in reg then Some(reg[pkg]) else None;
      } else {
        dialectClass := Some(DefaultSQLDialect);
      }
    }
    d := dialectClass.value;
  }

  /**
   * Whenever the name is not registered itself but some package prefix is,
   * a leftmost registered prefix exists, so `Resolve` picks a registered
   * dialect and not the default.
   */
  lemma {:induction false} FirstRegisteredPackageExists(reg: Registry, s: string, from: nat)
    requires from <= |s|
    requires !NoRegisteredPackageFrom(reg, s, from)
    ensures exists i :: FirstRegisteredPackageFrom(reg, s, from, i)
    decreases |s| - from
  {
    var j :| from <= j && IsPackageEnd(s, j) && s[..j] in reg;
    if IsPackageEnd(s, from) && s[..from] in reg {
      assert FirstRegisteredPackageFrom(reg, s, from, from);
    } else {
      FirstRegisteredPackageExists(reg, s, from + 1);
      var i :| FirstRegisteredPackageFrom(reg, s, from + 1, i);
      assert FirstRegisteredPackageFrom(reg, s, from, i);
    }
  }

  /**
   * Registration order does not matter; position does: whenever a package
   * prefix of the name is registered, the result is the binding of the
   * leftmost registered prefix, which is that prefix or a shorter one,
   * whichever was registered last.
   */
  lemma ShorterPrefixWins(reg: Registry, s: string, j: nat)
    requires s !in reg
    requires IsPackageEnd(s, j) && s[..j] in reg
    ensures exists i :: i <= j && FirstRegisteredPackageFrom(reg, s, 0, i) && Resolve(reg, s) == reg[s[..i]]
  {
    FirstRegisteredPackageExists(reg, s, 0);
    var i :| FirstRegisteredPackageFrom(reg, s, 0, i);
    assert i <= j;
  }

  /** A binding registered for the full class name is returned, whatever its packages map to. */
  lemma RegisteredNameResolves(reg: Registry, connClass: string, dialect: DialectClass)
    ensures Resolve(RegisterDialect(reg, connClass, dialect), connClass) == dialect
  {
  }

  /**
   * A binding for the vendor root `org` shadows the built-in `org.h2`
   * binding for every H2 connection class.
   */
  lemma RootPackageShadowsH2(d: DialectClass)
    ensures Resolve(RegisterDialect(InitialRegistry, "org", d), "org.h2.jdbc.JdbcConnection") == d
  {
    var reg := RegisterDialect(InitialRegistry, "org", d);
    var s := "org.h2.jdbc.JdbcConnection";
    assert s[..3] == "org";
    assert FirstRegisteredPackageFrom(reg, s, 0, 3);
  }

  /** With the initial registry, an H2 connection class resolves to `H2Dialect`. */
  lemma H2ConnectionResolves()
    ensures Resolve(InitialRegistry, "org.h2.jdbc.JdbcConnection") == H2Dialect
  {
    var s := "org.h2.jdbc.JdbcConnection";
    assert s[..3] == "org";
    assert s[..6] == "org.h2";
    assert FirstRegisteredPackageFrom(InitialRegistry, s, 0, 6);
  }
}
