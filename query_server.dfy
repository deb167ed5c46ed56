/**
 * The query gateway of server_1.py: the access check run before every
 * request, token issuance, and the exact-match, range and
 * nearest-neighbour endpoints over the loaded dataset.
 */
module QueryServer {
  import opened Wrappers
  import opened Hex
  import opened Records
  import opened TokenStore
  import opened Membership
  import opened QueryEngine

  /** The Flask endpoints; NoRoute is a URL that no view handles. */
  datatype Endpoint =
    | TokenRoute | QueryTokenRoute | DecryptSumRoute
    | ExactMatchRoute | RangeQueryRoute | KnnRoute | NoRoute

  /** The two endpoints require_authorization lets through unchecked. */
  predicate Exempt(e: Endpoint) {
    e == TokenRoute || e == QueryTokenRoute
  }

  /** require_authorization: the Authorization header must be an existing key. */
  predicate Authorized(e: Endpoint, auth: Option<string>, s: Store, now: int) {
    Exempt(e) || (Truthy(auth) && Live(s, now, auth.value))
  }

  /** The Query-Token check at the head of each query endpoint. */
  predicate QueryAllowed(s: Store, now: int, auth: Option<string>, queryToken: Option<string>) {
    Truthy(queryToken) && Bound(s, now, auth, queryToken.value)
  }

  /** The fields read from a JSON body; None is a key that is absent or null. */
  datatype ExactRequest = ExactRequest(field: Option<string>, value: Option<Value>)
  datatype RangeRequest = RangeRequest(field: Option<string>, minValue: Option<int>, maxValue: Option<int>)
  datatype KnnRequest = KnnRequest(latitude: Option<int>, longitude: Option<int>, k: Option<Value>)

  /** The columns of the dataset the server loads. */
  const RequiredColumns: set<string> := ResultColumns + {AgeColumn, Latitude, Longitude}

  /** The fields whose values the start-up loop adds to the filter. */
  const IndexedFields: seq<string> := [NameColumn, AgeColumn]

  ghost predicate Servable(t: Table) {
    Locatable(t) && RequiredColumns <= t.columns
  }

  ghost predicate IndexedRow(keys: set<Key>, r: Row) {
    forall j :: 0 <= j < |IndexedFields| ==> IndexedFields[j] in r && (IndexedFields[j], r[IndexedFields[j]]) in keys
  }

  /** Every row's name and age are among the filter's inserted pairs. */
  ghost predicate Indexed(keys: set<Key>, rows: seq<Row>) {
    forall i :: 0 <= i < |rows| ==> IndexedRow(keys, rows[i])
  }

  /** The pairs the start-up loop adds for the first `j` indexed fields of `r`. */
  ghost function FieldKeys(r: Row, j: nat): set<Key>
    requires j <= |IndexedFields| && NameColumn in r && AgeColumn in r
  {
    if j == 0 then {} else FieldKeys(r, j - 1) + {(IndexedFields[j - 1], r[IndexedFields[j - 1]])}
  }

  /** The pairs the start-up loop adds for `rows`: each row's name and age. */
  ghost function IndexKeys(rows: seq<Row>): set<Key>
    requires forall i :: 0 <= i < |rows| ==> NameColumn in rows[i] && AgeColumn in rows[i]
  {
    if rows == [] then {} else IndexKeys(rows[..|rows| - 1]) + FieldKeys(rows[|rows| - 1], |IndexedFields|)
  }

  lemma IndexedGrows(a: set<Key>, b: set<Key>, rows: seq<Row>)
    requires a <= b && Indexed(a, rows)
    ensures Indexed(b, rows)
  {
    forall i | 0 <= i < |rows| ensures IndexedRow(b, rows[i]) {
      assert IndexedRow(a, rows[i]);
    }
  }

  /** The distance column leaves every name and age, and so the index, as it was. */
  lemma DistancesKeepIndex(keys: set<Key>, t: Table, lat: int, lon: int)
    requires Locatable(t) && Indexed(keys, t.rows)
    ensures Indexed(keys, WithDistances(t, lat, lon).rows)
  {
    var t' := WithDistances(t, lat, lon);
    forall i | 0 <= i < |t'.rows| ensures IndexedRow(keys, t'.rows[i]) {
      assert IndexedRow(keys, t.rows[i]);
    }
  }

  function ExactMatchEndpoint(s: Store, now: int, positives: set<Key>, t: Table,
                              auth: Option<string>, queryToken: Option<string>, body: Option<ExactRequest>): Response
  {
    if !Authorized(ExactMatchRoute, auth, s, now) || !QueryAllowed(s, now, auth, queryToken) then Unauthorized
    else if body.None? || !Truthy(body.value.field) || body.value.value.None? then BadRequest
    else
      var field, value := body.value.field.value, body.value.value.value;
      ExactMatchResult(t, field, value, (field, value) in positives)
  }

  function RangeQueryEndpoint(s: Store, now: int, t: Table,
                              auth: Option<string>, queryToken: Option<string>, body: Option<RangeRequest>): Response
  {
    if !Authorized(RangeQueryRoute, auth, s, now) || !QueryAllowed(s, now, auth, queryToken) then Unauthorized
    else if body.None? || !Truthy(body.value.field) || body.value.minValue.None? || body.value.maxValue.None? then BadRequest
    else RangeResult(t, body.value.field.value, body.value.minValue.value, body.value.maxValue.value)
  }

  /** The answer, and the dataset afterwards: a successful query leaves its distance column behind. */
  function KnnEndpoint(s: Store, now: int, t: Table,
                       auth: Option<string>, queryToken: Option<string>, body: Option<KnnRequest>): (Response, Table)
    requires Locatable(t)
  {
    if !Authorized(KnnRoute, auth, s, now) || !QueryAllowed(s, now, auth, queryToken) then (Unauthorized, t)
    else if body.None? || body.value.latitude.None? || body.value.longitude.None? || body.value.k.None? then (BadRequest, t)
    else if !body.value.k.value.Num? || body.value.k.value.n <= 0 then (BadRequest, t)
    else
      var t' := WithDistances(t, body.value.latitude.value, body.value.longitude.value);
      (Results(NearestRecords(t', body.value.k.value.n)), t')
  }

  /** generate_token as written: the call at line 59 raises AttributeError, so no token is ever issued. */
  function GenerateTokenAsWritten(userId: Option<string>): (r: Response)
    ensures !r.Issued?
    ensures !Truthy(userId) ==> r == BadRequest
    ensures Truthy(userId) <==> r == ServerError
  {
    if !Truthy(userId) then BadRequest else ServerError
  }

  /** A well-formed request from user "alice" gets a 500 instead of a token. */
  lemma GenerateTokenAsWrittenFailsForAlice()
    ensures GenerateTokenAsWritten(Some("alice")) == ServerError
  {
  }

  class Gateway {
    const tokens: TokenManager
    const filter: BloomFilter
    var table: Table

    ghost predicate Valid()
      reads this, filter
    {
      Servable(table) && filter.Valid() && Indexed(filter.inserted, table.rows)
    }

    /** Start-up: the loaded rows, a fresh filter, and the loop adding each row's name and age. */
    constructor (data: Table, tokens: TokenManager)
      requires Servable(data)
      ensures Valid() && table == data && this.tokens == tokens && fresh(filter)
      ensures filter.inserted == IndexKeys(data.rows)
    {
      this.tokens := tokens;
      table := data;
      filter := new BloomFilter();
      new;
      var i := 0;
      while i < |data.rows|
        invariant 0 <= i <= |data.rows|
        invariant table == data
        invariant filter.Valid() && Indexed(filter.inserted, data.rows[..i])
        invariant filter.inserted == IndexKeys(data.rows[..i])
      {
        var row := data.rows[i];
        assert RowFits(data, row);
        var j := 0;
        while j < |IndexedFields|
          invariant 0 <= j <= |IndexedFields|
          invariant table == data
          invariant filter.Valid() && Indexed(filter.inserted, data.rows[..i])
          invariant forall m :: 0 <= m < j ==> (IndexedFields[m], row[IndexedFields[m]]) in filter.inserted
          invariant filter.inserted == IndexKeys(data.rows[..i]) + FieldKeys(row, j)
        {
          ghost var before := filter.inserted;
          filter.Add(IndexedFields[j], row[IndexedFields[j]]);
          IndexedGrows(before, filter.inserted, data.rows[..i]);
          j := j + 1;
        }
        assert IndexedRow(filter.inserted, row);
        assert data.rows[..i + 1] == data.rows[..i] + [row];
        assert data.rows[..i + 1][..i] == data.rows[..i];
        i := i + 1;
      }
      assert data.rows[..|data.rows|] == data.rows;
    }

    /** require_authorization. */
    method RequireAuthorization(e: Endpoint, auth: Option<string>) returns (ok: bool)
      ensures ok <==> Authorized(e, auth, tokens.store, tokens.now)
    {
      if Exempt(e) {
        return true;
      }
      if !Truthy(auth) {
        return false;
      }
      ok := tokens.ValidateAccessToken(auth.value);
    }

    /** `not query_token or not validate_query_token(access_token, query_token)`, negated. */
    method CheckQueryToken(auth: Option<string>, queryToken: Option<string>) returns (ok: bool)
      ensures ok <==> QueryAllowed(tokens.store, tokens.now, auth, queryToken)
    {
      if !Truthy(queryToken) {
        return false;
      }
      ok := tokens.ValidateQueryToken(auth, queryToken.value);
    }

    /** generate_token with revoke_tokens_for_user defined: earlier tokens of the user are deleted first. */
    method GenerateToken(userId: Option<string>, entropy: seq<Byte>) returns (resp: Response)
      requires |entropy| == TokenBytes
      modifies tokens
      ensures tokens.now == old(tokens.now)
      ensures !Truthy(userId) ==> resp == BadRequest && tokens.store == old(tokens.store)
      ensures Truthy(userId) ==>
                && resp == Issued(TokenHex(entropy))
                && tokens.store == SetEx(WithoutUser(old(tokens.store), userId.value), tokens.now, TokenHex(entropy), userId.value)
    {
      if !Truthy(userId) {
        return BadRequest;
      }
      tokens.RevokeTokensForUser(userId.value);
      var token := tokens.GenerateAccessToken(userId.value, entropy);
      resp := Issued(token);
    }

    /**
     * generate_query_token. Without an Authorization header the key is None,
     * which the Redis client refuses: a 500.
     */
    method GenerateQueryToken(auth: Option<string>, entropy: seq<Byte>) returns (resp: Response)
      requires |entropy| == TokenBytes
      modifies tokens
      ensures tokens.now == old(tokens.now)
      ensures auth.None? ==> resp == ServerError && tokens.store == old(tokens.store)
      ensures auth.Some? && !Live(old(tokens.store), tokens.now, auth.value) ==>
                resp == Unauthorized && tokens.store == old(tokens.store)
      ensures auth.Some? && Live(old(tokens.store), tokens.now, auth.value) ==>
                && resp == Issued(TokenHex(entropy))
                && tokens.store == SetEx(old(tokens.store), tokens.now, TokenHex(entropy), auth.value)
    {
      if auth.None? {
        return ServerError;
      }
      var valid := tokens.ValidateAccessToken(auth.value);
      if !valid {
        return Unauthorized;
      }
      var queryToken := tokens.GenerateQueryToken(auth.value, entropy);
      assert queryToken.Some?;
      resp := Issued(queryToken.value);
    }

    method ExactMatchQuery(auth: Option<string>, queryToken: Option<string>, body: Option<ExactRequest>)
      returns (resp: Response)
      requires Valid()
      ensures resp == ExactMatchEndpoint(tokens.store, tokens.now, filter.positives, table, auth, queryToken, body)
    {
      var allowed := RequireAuthorization(ExactMatchRoute, auth);
      if !allowed {
        return Unauthorized;
      }
      var bound := CheckQueryToken(auth, queryToken);
      if !bound {
        return Unauthorized;
      }
      if body.None? || !Truthy(body.value.field) || body.value.value.None? {
        return BadRequest;
      }
      var field, value := body.value.field.value, body.value.value.value;
      if !filter.Lookup(field, value) {
        return NotFound;
      }
      if field !in table.columns {
        return ServerError;
      }
      var matched := Select(table.rows, Matches(field, value));
      if matched == [] {
        return NotFound;
      }
      var results := CollectResults(matched, ResultColumns);
      resp := Results(results);
    }

    method RangeQuery(auth: Option<string>, queryToken: Option<string>, body: Option<RangeRequest>)
      returns (resp: Response)
      requires Valid()
      ensures resp == RangeQueryEndpoint(tokens.store, tokens.now, table, auth, queryToken, body)
    {
      var allowed := RequireAuthorization(RangeQueryRoute, auth);
      if !allowed {
        return Unauthorized;
      }
      var bound := CheckQueryToken(auth, queryToken);
      if !bound {
        return Unauthorized;
      }
      if body.None? || !Truthy(body.value.field) || body.value.minValue.None? || body.value.maxValue.None? {
        return BadRequest;
      }
      var field := body.value.field.value;
      var lo, hi := body.value.minValue.value, body.value.maxValue.value;
      if field !in table.columns || field !in table.numeric {
        return BadRequest;
      }
      var matched := Select(table.rows, InRange(field, lo, hi));
      if matched == [] {
        return NotFound;
      }
      var results := CollectResults(matched, ResultColumns);
      resp := Results(results);
    }

    method KnnQuery(auth: Option<string>, queryToken: Option<string>, body: Option<KnnRequest>)
      returns (resp: Response)
      requires Valid()
      modifies this
      ensures Valid()
      ensures (resp, table) == KnnEndpoint(tokens.store, tokens.now, old(table), auth, queryToken, body)
    {
      var allowed := RequireAuthorization(KnnRoute, auth);
      if !allowed {
        return Unauthorized;
      }
      var bound := CheckQueryToken(auth, queryToken);
      if !bound {
        return Unauthorized;
      }
      if body.None? || body.value.latitude.None? || body.value.longitude.None? || body.value.k.None? {
        return BadRequest;
      }
      var k := body.value.k.value;
      if !k.Num? || k.n <= 0 {
        return BadRequest;
      }
      var lat, lon := body.value.latitude.value, body.value.longitude.value;
      DistancesKeepIndex(filter.inserted, table, lat, lon);
      table := WithDistances(table, lat, lon);
      resp := Results(NearestRecords(table, k.n));
    }
  }

  /** Without a live access token and a query token bound to it, no query endpoint looks at the data. */
  lemma QueriesNeedBothTokens(s: Store, now: int, positives: set<Key>, t: Table,
                              auth: Option<string>, queryToken: Option<string>,
                              exact: Option<ExactRequest>, range: Option<RangeRequest>, knn: Option<KnnRequest>)
    requires Locatable(t)
    requires !Truthy(auth) || !Live(s, now, auth.value) || !Truthy(queryToken) || Get(s, now, queryToken.value) != auth
    ensures ExactMatchEndpoint(s, now, positives, t, auth, queryToken, exact) == Unauthorized
    ensures RangeQueryEndpoint(s, now, t, auth, queryToken, range) == Unauthorized
    ensures KnnEndpoint(s, now, t, auth, queryToken, knn) == (Unauthorized, t)
  {
  }

  /**
   * The filter never cuts short an exact match on the name or age of a
   * stored row: the row is found and its projection returned.
   */
  lemma StoredValueIsFound(s: Store, now: int, inserted: set<Key>, positives: set<Key>, t: Table,
                           auth: Option<string>, queryToken: Option<string>, i: nat, field: string)
    requires Servable(t) && Indexed(inserted, t.rows) && inserted <= positives
    requires Authorized(ExactMatchRoute, auth, s, now) && QueryAllowed(s, now, auth, queryToken)
    requires i < |t.rows| && field in IndexedFields
    ensures field in t.rows[i]
    ensures var r := ExactMatchEndpoint(s, now, positives, t, auth, queryToken,
                                        Some(ExactRequest(Some(field), Some(t.rows[i][field]))));
            r.Results? && Project(t.rows[i], ResultColumns) in r.records
  {
    assert IndexedRow(inserted, t.rows[i]);
    assert RowFits(t, t.rows[i]);
    AnswerFindsRow(t.rows, Matches(field, t.rows[i][field]), ResultColumns, i);
  }

  /**
   * Re-issuing a user's token deletes only the keys holding the user id: a
   * live query token bound to one of their old access tokens survives, still
   * opens every guarded endpoint, and still mints new query tokens.
   */
  lemma QueryTokensSurviveRevocation(s: Store, now: int, userId: string, accessToken: string,
                                     queryToken: string, token: string, e: Endpoint)
    requires accessToken in s && s[accessToken].value == userId
    requires Live(s, now, queryToken) && s[queryToken].value == accessToken
    requires queryToken != "" && queryToken != token && accessToken != userId
    ensures var s' := SetEx(WithoutUser(s, userId), now, token, userId);
            accessToken != token ==> !Live(s', now, accessToken)
    ensures var s' := SetEx(WithoutUser(s, userId), now, token, userId);
            && Live(s', now, queryToken)
            && Authorized(e, Some(queryToken), s', now)
  {
  }

  /** A query token presented as the Authorization header opens every guarded endpoint. */
  lemma QueryTokenPassesAuthorization(s: Store, now: int, accessToken: string, queryToken: string, e: Endpoint)
    requires queryToken != ""
    ensures Authorized(e, Some(queryToken), SetEx(s, now, queryToken, accessToken), now)
  {
  }
}
