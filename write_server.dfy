/**
 * The write path of server_0.py: token issuance without revocation, the
 * start-up loop indexing every row's name in the filter, and add_data,
 * which indexes the new row's name and appends the row.
 */
module WriteServer {
  import opened Wrappers
  import opened Hex
  import opened Records
  import opened TokenStore
  import opened Membership

  /** The label under which server_0 adds names: "Name", capitalised. */
  const NameLabel: string := "Name"

  /** Every row has a name, and that name is among the filter's inserted pairs. */
  ghost predicate NamesIndexed(keys: set<Key>, rows: seq<Row>) {
    forall i :: 0 <= i < |rows| ==> NameColumn in rows[i] && (NameLabel, rows[i][NameColumn]) in keys
  }

  /** The pairs the start-up loop adds for `rows`. */
  ghost function NameKeys(rows: seq<Row>): set<Key>
    requires forall i :: 0 <= i < |rows| ==> NameColumn in rows[i]
  {
    set i | 0 <= i < |rows| :: (NameLabel, rows[i][NameColumn])
  }

  /**
   * The outcome of add_data: 401 without a live token, 400 for a missing or
   * empty body, 500 when `new_data["name"]` raises KeyError, else success.
   */
  function AddDataResponse(s: Store, now: int, auth: Option<string>, body: Option<Row>): Response {
    if !Truthy(auth) || !Live(s, now, auth.value) then Unauthorized
    else if body.None? || body.value == map[] then BadRequest
    else if NameColumn !in body.value then ServerError
    else Added
  }

  /** Appending a row whose name is indexed keeps every row's name indexed. */
  lemma AppendKeepsNamesIndexed(keys: set<Key>, rows: seq<Row>, row: Row)
    requires NamesIndexed(keys, rows)
    requires NameColumn in row && (NameLabel, row[NameColumn]) in keys
    ensures NamesIndexed(keys, rows + [row])
  {
  }

  /** What add_data answers for each way a request can be malformed. */
  lemma AddDataRejections(s: Store, now: int, auth: Option<string>, body: Option<Row>)
    ensures !Truthy(auth) || !Live(s, now, auth.value) ==> AddDataResponse(s, now, auth, body) == Unauthorized
    ensures Truthy(auth) && Live(s, now, auth.value) && (body.None? || body.value == map[]) ==>
              AddDataResponse(s, now, auth, body) == BadRequest
    ensures Truthy(auth) && Live(s, now, auth.value) && body.Some? && body.value != map[] && NameColumn !in body.value ==>
              AddDataResponse(s, now, auth, body) == ServerError
    ensures AddDataResponse(s, now, auth, body) == Added <==>
              Truthy(auth) && Live(s, now, auth.value) && body.Some? && NameColumn in body.value
  {
  }

  class WriteServer {
    const tokens: TokenManager
    const filter: BloomFilter
    var rows: seq<Row>

    ghost predicate Valid()
      reads this, filter
    {
      filter.Valid() && NamesIndexed(filter.inserted, rows)
    }

    /** Start-up: the loaded rows and the loop adding each row's name to a fresh filter. */
    constructor (data: seq<Row>, tokens: TokenManager)
      requires forall i :: 0 <= i < |data| ==> NameColumn in data[i]
      ensures Valid() && rows == data && this.tokens == tokens && fresh(filter)
      ensures filter.inserted == NameKeys(data)
    {
      this.tokens := tokens;
      rows := data;
      filter := new BloomFilter();
      new;
      var i := 0;
      while i < |data|
        invariant 0 <= i <= |data|
        invariant rows == data
        invariant filter.Valid() && NamesIndexed(filter.inserted, data[..i])
        invariant filter.inserted == NameKeys(data[..i])
      {
        filter.Add(NameLabel, data[i][NameColumn]);
        assert data[..i + 1] == data[..i] + [data[i]];
        assert NameKeys(data[..i + 1]) == NameKeys(data[..i]) + {(NameLabel, data[i][NameColumn])} by {
          var next := data[..i + 1];
          forall k | k in NameKeys(next) ensures k in NameKeys(data[..i]) + {(NameLabel, data[i][NameColumn])} {
            var j :| 0 <= j < |next| && k == (NameLabel, next[j][NameColumn]);
            if j < i {
              assert data[..i][j] == next[j];
            }
          }
          forall k | k in NameKeys(data[..i]) ensures k in NameKeys(next) {
            var j :| 0 <= j < i && k == (NameLabel, data[..i][j][NameColumn]);
            assert next[j] == data[..i][j];
          }
          assert next[i] == data[i];
        }
        i := i + 1;
      }
      assert data[..|data|] == data;
    }

    /** generate_token: this server does not revoke a user's earlier tokens. */
    method GenerateToken(userId: Option<string>, entropy: seq<Byte>) returns (resp: Response)
      requires |entropy| == TokenBytes
      modifies tokens
      ensures tokens.now == old(tokens.now)
      ensures !Truthy(userId) ==> resp == BadRequest && tokens.store == old(tokens.store)
      ensures Truthy(userId) ==>
                && resp == Issued(TokenHex(entropy))
                && tokens.store == SetEx(old(tokens.store), tokens.now, TokenHex(entropy), userId.value)
    {
      if !Truthy(userId) {
        return BadRequest;
      }
      var token := tokens.GenerateAccessToken(userId.value, entropy);
      resp := Issued(token);
    }

    /**
     * add_data: on success exactly one row is appended at the end and its
     * name is added to the filter; on every error nothing changes.
     */
    method AddData(auth: Option<string>, body: Option<Row>) returns (resp: Response)
      requires Valid()
      modifies this, filter
      ensures Valid()
      ensures resp == AddDataResponse(tokens.store, tokens.now, auth, body)
      ensures resp == Added ==>
                && rows == old(rows) + [body.value]
                && filter.inserted == old(filter.inserted) + {(NameLabel, body.value[NameColumn])}
                && old(filter.positives) <= filter.positives
      ensures resp != Added ==>
                rows == old(rows) && filter.inserted == old(filter.inserted) && filter.positives == old(filter.positives)
    {
      if !Truthy(auth) {
        return Unauthorized;
      }
      var valid := tokens.ValidateAccessToken(auth.value);
      if !valid {
        return Unauthorized;
      }
      if body.None? || body.value == map[] {
        return BadRequest;
      }
      var newData := body.value;
      if NameColumn !in newData {
        return ServerError;
      }
      filter.Add(NameLabel, newData[NameColumn]);
      AppendKeepsNamesIndexed(filter.inserted, rows, newData);
      rows := rows + [newData];
      resp := Added;
    }
  }
}
