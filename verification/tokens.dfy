/**
 * The token registry: a process-wide map from the identity of a value
 * produced while building a query (for example the result of an aggregate
 * function applied to a field) to the token describing the expression that
 * produced it.  Keys are compared by reference identity, not by equality.
 */
module Tokens {
  import opened Wrappers

  /** A Java object: `identity` is its reference, `value` what `equals` would compare. */
  datatype Obj<V> = Obj(identity: nat, value: V)

  type TokenMap<T> = map<nat, T>

  /** Records `token` for the identity of `x` and hands `x` back unchanged. */
  function RegisterToken<V, T>(tokens: TokenMap<T>, x: Obj<V>, token: T): (r: (TokenMap<T>, Obj<V>))
    ensures r.1 == x
    ensures x.identity in r.0 && r.0[x.identity] == token
    ensures forall id :: id != x.identity ==> (id in r.0 <==> id in tokens)
    ensures forall id :: id != x.identity && id in tokens ==> r.0[id] == tokens[id]
  {
    (tokens[x.identity := token], x)
  }

  /** The token recorded for the identity of `x`; `None` is the `null` of a miss. */
  function GetToken<V, T>(tokens: TokenMap<T>, x: Obj<V>): (r: Option<T>)
    ensures r.Some? <==> x.identity in tokens
    ensures r.Some? ==> r.value == tokens[x.identity]
  {
    if x.identity in tokens then Some(tokens[x.identity]) else None
  }

  /** A lookup right after registering finds the registered token. */
  lemma GetAfterRegister<V, T>(tokens: TokenMap<T>, x: Obj<V>, token: T)
    ensures GetToken(RegisterToken(tokens, x, token).0, x) == Some(token)
    ensures RegisterToken(tokens, x, token).1 == x
  {
  }

  /**
   * Registering a token for one object is invisible to every other object,
   * even one whose value is equal: the registry goes by identity.
   */
  lemma RegisterKeepsOthers<V, T>(tokens: TokenMap<T>, x: Obj<V>, y: Obj<V>, token: T)
    requires x.identity != y.identity
    ensures GetToken(RegisterToken(tokens, x, token).0, y) == GetToken(tokens, y)
  {
  }

  /** A value equal to a registered one but never registered itself gets no token. */
  lemma EqualValueIsNotEnough<V, T>(tokens: TokenMap<T>, x: Obj<V>, y: Obj<V>, token: T)
    requires x.value == y.value && x.identity != y.identity && y.identity !in tokens
    ensures GetToken(RegisterToken(tokens, x, token).0, y) == None
  {
  }
}
