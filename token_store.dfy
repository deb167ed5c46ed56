/**
 * The token authority of token_manager.py. Redis is a map from key to the
 * stored string and the time at which the key expires, plus the current
 * time in seconds; a key exists while the clock is before its expiry.
 * Access tokens map to a user id, query tokens to the access token they
 * are bound to, in the same keyspace.
 */
module TokenStore {
  import opened Wrappers
  import opened Hex

  /** `ex=3600` on both kinds of token. */
  const TokenTtl: int := 3600

  datatype Entry = Entry(value: string, expiry: int)

  type Store = map<string, Entry>

  /** Redis EXISTS. */
  predicate Live(s: Store, now: int, key: string) {
    key in s && now < s[key].expiry
  }

  /** Redis GET: the stored string, or None for a missing or expired key. */
  function Get(s: Store, now: int, key: string): Option<string> {
    if Live(s, now, key) then Some(s[key].value) else None
  }

  /** Redis SET with EX 3600. */
  function SetEx(s: Store, now: int, key: string, value: string): Store {
    s[key := Entry(value, now + TokenTtl)]
  }

  /**
   * The comparison of validate_query_token: what GET returns for the query
   * token equals the presented access token, which may itself be None.
   */
  predicate Bound(s: Store, now: int, accessToken: Option<string>, queryToken: string) {
    Get(s, now, queryToken) == accessToken
  }

  /** The store once every key whose value is `userId` is deleted. */
  function WithoutUser(s: Store, userId: string): Store {
    map k | k in s && s[k].value != userId :: s[k]
  }

  class TokenManager {
    var store: Store
    var now: int

    /**
     * A client for the Redis database at 127.0.0.1:6379, db 0. The database
     * outlives the process and is shared by every server that connects to
     * it, so the client starts with whatever keys it already holds.
     */
    constructor (initial: Store, start: int)
      ensures store == initial && now == start
    {
      store := initial;
      now := start;
    }

    /** The passing of time. */
    method Tick(seconds: nat)
      modifies this
      ensures store == old(store) && now == old(now) + seconds
    {
      now := now + seconds;
    }

    method GenerateAccessToken(userId: string, entropy: seq<Byte>) returns (token: string)
      requires |entropy| == TokenBytes
      modifies this
      ensures token == TokenHex(entropy) && |token| == 32
      ensures store == SetEx(old(store), now, token, userId) && now == old(now)
    {
      token := TokenHex(entropy);
      store := store[token := Entry(userId, now + TokenTtl)];
    }

    method ValidateAccessToken(token: string) returns (ok: bool)
      ensures ok <==> Live(store, now, token)
    {
      ok := token in store && now < store[token].expiry;
    }

    /** None stands for the ValueError raised on an invalid access token. */
    method GenerateQueryToken(accessToken: string, entropy: seq<Byte>) returns (queryToken: Option<string>)
      requires |entropy| == TokenBytes
      modifies this
      ensures now == old(now)
      ensures queryToken.None? <==> !Live(old(store), now, accessToken)
      ensures queryToken.None? ==> store == old(store)
      ensures queryToken.Some? ==>
                && queryToken.value == TokenHex(entropy) && |queryToken.value| == 32
                && store == SetEx(old(store), now, queryToken.value, accessToken)
    {
      var valid := ValidateAccessToken(accessToken);
      if !valid {
        return None;
      }
      var q := TokenHex(entropy);
      store := store[q := Entry(accessToken, now + TokenTtl)];
      queryToken := Some(q);
    }

    method ValidateQueryToken(accessToken: Option<string>, queryToken: string) returns (ok: bool)
      ensures ok <==> Bound(store, now, accessToken, queryToken)
    {
      var stored: Option<string> := None;
      if queryToken in store && now < store[queryToken].expiry {
        stored := Some(store[queryToken].value);
      }
      ok := stored == accessToken;
    }

    /** The revocation server_1.py calls; token_manager.py does not define it. */
    method RevokeTokensForUser(userId: string)
      modifies this
      ensures store == WithoutUser(old(store), userId) && now == old(now)
    {
      store := map k | k in store && store[k].value != userId :: store[k];
    }
  }

  /** Right after issuance the token exists, maps to its value, and no other key changes, whenever it is read. */
  lemma IssuedTokenValidates(s: Store, now: int, token: string, value: string)
    ensures Live(SetEx(s, now, token, value), now, token)
    ensures Get(SetEx(s, now, token, value), now, token) == Some(value)
    ensures forall k, t :: k != token ==> Get(SetEx(s, now, token, value), t, k) == Get(s, t, k)
  {
  }

  /** A token set at `issued` exists exactly until the clock reaches issued + 3600. */
  lemma TokenLifetime(s: Store, issued: int, token: string, value: string, later: int)
    requires issued <= later
    ensures Live(SetEx(s, issued, token, value), later, token) <==> later < issued + TokenTtl
  {
  }

  /** A fresh query token validates for its access token and for nothing else. */
  lemma QueryTokenBinding(s: Store, now: int, accessToken: string, queryToken: string)
    ensures Bound(SetEx(s, now, queryToken, accessToken), now, Some(accessToken), queryToken)
    ensures forall b :: b != Some(accessToken) ==> !Bound(SetEx(s, now, queryToken, accessToken), now, b, queryToken)
  {
  }

  /** A query token that is not in the store never validates for a present access token. */
  lemma UnknownQueryTokenRejected(s: Store, now: int, accessToken: string, queryToken: string)
    requires !Live(s, now, queryToken)
    ensures !Bound(s, now, Some(accessToken), queryToken)
  {
  }

  /** With no access token at all, an unknown query token validates: None == None. */
  lemma MissingAccessTokenMatchesUnknownQueryToken(s: Store, now: int, queryToken: string)
    requires !Live(s, now, queryToken)
    ensures Bound(s, now, None, queryToken)
  {
  }

  /** A live query token passes the access-token check: both kinds share one keyspace. */
  lemma QueryTokenIsAccessToken(s: Store, now: int, accessToken: string, queryToken: string)
    ensures Live(SetEx(s, now, queryToken, accessToken), now, queryToken)
  {
  }

  /**
   * Query-token validation is one GET and one comparison: a query token
   * issued half an hour after its access token still validates once that
   * access token has expired.
   */
  lemma QueryTokenOutlivesAccessToken(s: Store, issued: int, userId: string, accessToken: string, queryToken: string)
    requires accessToken != queryToken
    ensures var s1 := SetEx(s, issued, accessToken, userId);
            var s2 := SetEx(s1, issued + 1800, queryToken, accessToken);
            && !Live(s2, issued + TokenTtl, accessToken)
            && Bound(s2, issued + TokenTtl, Some(accessToken), queryToken)
  {
  }

  /**
   * After revoking a user and issuing a new token for them, the new token is
   * the only key holding that user id, and every other user's keys are kept.
   */
  lemma ReissueLeavesOneToken(s: Store, now: int, userId: string, token: string)
    ensures var s' := SetEx(WithoutUser(s, userId), now, token, userId);
            && Live(s', now, token)
            && (forall k :: k in s' && s'[k].value == userId ==> k == token)
            && (forall k :: k in s && k != token && s[k].value != userId ==> k in s' && s'[k] == s[k])
  {
  }
}
