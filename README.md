# Secure query gateway: token authority, query engine and write path

This project models the sequential core of a gateway that answers structured
queries over a healthcare dataset behind two tiers of credentials:

- **Token authority** (`TokenStore`, token_manager.py). One Redis keyspace
  holds access tokens (token → user id) and query tokens (token → the access
  token it is bound to), each set with a 3600-second expiry. Redis is a
  `map<string, Entry>` of value and expiry time plus a clock `now`; a key
  exists while `now` is before its expiry. `secrets.token_hex(16)` is the
  hexadecimal encoding (`Hex.TokenHex`) of sixteen random bytes, which the
  caller passes in. There is no freshness assumption: a SET on an existing
  key overwrites it, as in Redis.
- **Membership filter** (`Membership`). The imported `BloomFilter` is
  abstract. It records the set of inserted `(field, value)` pairs and a
  superset of them that `lookup` reports. So there are no false negatives,
  and false positives are allowed.
- **Query engine** (`QueryEngine`, server_1.py). Exact match, the inclusive
  numeric range and k-nearest-neighbour are pure functions over a `Table`.
  A table has a column set, a set of numeric (int64/float64) columns, and a
  sequence of rows; a row maps column names to cells. The pandas mask
  selection is `Select`. Its reference description is `Positions`: the
  ascending indices of the rows that satisfy the predicate. `nsmallest` is a
  stable insertion sort of row indices by (distance, row index), cut to the
  first k.
- **Query gateway** (`QueryServer.Gateway`, server_1.py). It runs the
  `before_request` access check, issues tokens, and serves the three query
  endpoints. `knn_query` leaves its `distance` column in the dataset. The
  gateway's invariant: every row's `("name", name)` and `("age", age)` pair
  is in the filter.
- **Write path** (`WriteServer.WriteServer`, server_0.py). It issues tokens
  and runs `add_data`, with the invariant that every stored row's name is in
  the filter under the label `"Name"`.

HTTP outcomes are the `Records.Response` datatype (Issued, Results, Added,
Unauthorized, BadRequest, NotFound, ServerError). An exception caught by a
view's `except Exception` becomes `ServerError`. The dataset and request
bodies are typed values. Every `Option` field is a JSON key that may be
absent or null.

Behaviour stated here as the code has it:

- `validate_access_token` checks only that the key exists. A live query token
  therefore also passes as an access token (`TokenStore.QueryTokenIsAccessToken`,
  `QueryServer.QueryTokenPassesAuthorization`). From there it can open every
  guarded endpoint and mint further query tokens.
- `validate_query_token` is one GET and one comparison. It does not re-check
  the bound access token, so a query token outlives its access token
  (`TokenStore.QueryTokenOutlivesAccessToken`). Because Python compares
  `None == None`, an unknown query token validates when the access token is
  None (`TokenStore.MissingAccessTokenMatchesUnknownQueryToken`). The
  endpoints cannot reach this, because `before_request` rejects a missing
  Authorization header first.
- In server_1 `generate_query_token` has no `before_request` check. If the
  Authorization header is missing, the Redis client is handed `None` as a key
  and raises, which gives a 500.
- Both servers connect to the same persistent Redis database (127.0.0.1:6379,
  db 0; server_0.py:9, server_1.py:35), so they share one keyspace. A
  `TokenManager` therefore starts from any store, not an empty one. A token
  server_0 issued is live in server_1, and server_1's revocation also deletes
  the keys server_0 set for the same user id.
- The two servers index names under different labels: server_1 uses `"name"`
  (server_1.py:42) and server_0 uses `"Name"` (server_0.py:30, 56). Each
  server's filter is consistent with its own lookups.
- Two token policies coexist. server_0 does not revoke a user's earlier
  tokens. server_1 calls `revoke_tokens_for_user`, which `TokenManager` does
  not define (see Findings). The model's corrected server_1 revokes on
  re-issue. It defines revocation as deleting every key whose value is the
  user id, because the keyspace does not say which keys are access tokens.
  Query tokens hold an access token, not the user id, so they survive this
  revocation. A live query token bound to a revoked access token still passes
  `require_authorization` and can mint further query tokens
  (`QueryServer.QueryTokensSurviveRevocation`).

## Model

| member | source | states |
|---|---|---|
| `Hex.TokenHex` | token_manager.py:17 | a token is two lower-case hexadecimal digits per random byte: 32 characters for `token_hex(16)` |
| `Hex.ParseHex` | token_manager.py:17 | reading hexadecimal back gives half as many bytes as characters |
| `Hex.ParseTokenHex` | token_manager.py:17 | parsing a generated token gives back exactly the random bytes it was made from |
| `Hex.TokenHexInjective` | token_manager.py:29 | distinct random draws give distinct tokens |
| `TokenStore.Live` | token_manager.py:23 | Redis EXISTS: the key has been set and the clock is before its expiry |
| `TokenStore.Get` | token_manager.py:35 | Redis GET: the stored string for a live key, None for a missing or expired one |
| `TokenStore.SetEx` | token_manager.py:18 | Redis SET with `ex=3600`: the key maps to the value until now + 3600, overwriting any earlier entry |
| `TokenStore.Bound` | token_manager.py:33-36 | the comparison of `validate_query_token`: GET of the query token equals the presented access token, which may be None |
| `TokenStore.WithoutUser` | server_1.py:59 | the store once every key whose value is the user id is deleted |
| `TokenStore.TokenManager.constructor` | token_manager.py:6-13 | connecting to the Redis database gives a client over the keys it already holds, at the given time; nothing is emptied |
| `TokenStore.TokenManager.GenerateAccessToken` | token_manager.py:15-19 | returns `token_hex` of the random bytes (32 characters) and sets exactly that key to the user id with expiry now + 3600; the clock and every other key are unchanged |
| `TokenStore.TokenManager.ValidateAccessToken` | token_manager.py:21-23 | true exactly when the key exists (set and not yet expired), whatever kind of token it is |
| `TokenStore.TokenManager.GenerateQueryToken` | token_manager.py:25-31 | fails (ValueError) with the store unchanged exactly when the access token does not exist; otherwise returns a 32-character token and sets it, bound to the access token, for 3600 s |
| `TokenStore.TokenManager.ValidateQueryToken` | token_manager.py:33-36 | true exactly when GET of the query token equals the presented access token, None included |
| `TokenStore.TokenManager.RevokeTokensForUser` | server_1.py:59 | deletes every key whose value is the user id and keeps every other key |
| `TokenStore.TokenManager.Tick` | token_manager.py:18 | time passes and the stored entries are unchanged |
| `TokenStore.IssuedTokenValidates` | token_manager.py:18-23 | right after SET the token exists and maps to its value, and every other key reads as before at any time |
| `TokenStore.TokenLifetime` | token_manager.py:18 | a key set at time t exists at a later time exactly while that time is before t + 3600 |
| `TokenStore.QueryTokenBinding` | token_manager.py:30-36 | a fresh query token validates for its access token and for no other access token, None included |
| `TokenStore.UnknownQueryTokenRejected` | token_manager.py:35-36 | a query token not in the store never validates for a present access token |
| `TokenStore.MissingAccessTokenMatchesUnknownQueryToken` | token_manager.py:35-36 | with access token None, a query token not in the store validates (None == None) |
| `TokenStore.QueryTokenIsAccessToken` | token_manager.py:23 | a freshly set query token passes `validate_access_token` |
| `TokenStore.QueryTokenOutlivesAccessToken` | token_manager.py:33-36 | a query token issued 1800 s after its access token still validates once that access token has expired |
| `TokenStore.ReissueLeavesOneToken` | server_1.py:59-60 | after revoking a user and issuing a new token, the new token exists and is the only key holding that user id; other users' keys are kept |
| `Membership.BloomFilter.constructor` | server_1.py:38 | a new filter has nothing inserted and reports nothing |
| `Membership.BloomFilter.Add` | server_1.py:43 | the pair joins the inserted set; the pairs `lookup` reports grow by at least that pair |
| `Membership.BloomFilter.Lookup` | server_1.py:117 | `lookup(field, value)` answers true exactly for the pairs the filter reports |
| `Membership.BloomFilter.NoFalseNegatives` | server_1.py:117 | `lookup` is true for every inserted pair |
| `QueryEngine.Select` | server_1.py:121 | the mask selection keeps only rows of the input that satisfy the predicate, and never more rows than the input |
| `QueryEngine.SelectAppend` | server_1.py:121 | selecting from a concatenation gives the selection of the first part and then that of the second: dataset order is kept |
| `QueryEngine.SelectCount` | server_1.py:171 | each satisfying row is kept as many times as it occurs, and every other row is dropped |
| `QueryEngine.Positions` | server_1.py:171 | the ascending indices of exactly the rows satisfying the predicate |
| `QueryEngine.SelectIsPositions` | server_1.py:121 | the mask selection equals the rows at those ascending indices |
| `QueryEngine.CollectResults` | server_1.py:126-134 | the append loop builds one projected dictionary per row, in row order |
| `QueryEngine.Answer` | server_1.py:121-136 | the tail shared by both query endpoints: 404 when the mask selects nothing, else the selected rows projected to the four result columns |
| `QueryEngine.AnswerLists` | server_1.py:121-136 | the endpoint answer is NotFound when no row satisfies the predicate, else the projections of exactly the satisfying rows in dataset order |
| `QueryEngine.AnswerFindsRow` | server_1.py:121-134 | a row satisfying the predicate always has its projection among the results |
| `QueryEngine.Matches` | server_1.py:121 | the mask `data_store[field] == value`: the row has the field and its cell equals the value |
| `QueryEngine.ExactMatchResult` | server_1.py:116-136 | after the filter answers: a negative answer is 404 without a scan; a field that is not a column raises KeyError, 500; otherwise the shared answer over the equality mask |
| `QueryEngine.ExactMatchResultCharacterized` | server_1.py:116-136 | a negative filter answer gives NotFound with no scan; otherwise the results are exactly the rows with `row[field] == value`, in dataset order, projected to name, hospital, medical_condition and insurance_provider; no match gives NotFound |
| `QueryEngine.InRange` | server_1.py:171 | the mask `min_value <= data_store[field] <= max_value`, both bounds included |
| `QueryEngine.RangeResult` | server_1.py:164-186 | a field that is not a column, or not int64/float64, is 400; otherwise the shared answer over the range mask |
| `QueryEngine.RangeResultCharacterized` | server_1.py:164-186 | a field that is not a column, or not numeric, is rejected; otherwise the results are exactly the rows with min ≤ value ≤ max (both bounds included) in dataset order; none gives NotFound |
| `QueryEngine.WithDistances` | server_1.py:225-227 | the distance column is added as a numeric column holding each row's squared distance; every other cell is unchanged |
| `QueryEngine.Insert` | server_1.py:228 | inserting an index into a list sorted by (distance, row) keeps it sorted and adds exactly that index |
| `QueryEngine.SortIndices` | server_1.py:228 | every row index appears once, ascending by distance with ties in row order |
| `QueryEngine.Nearest` | server_1.py:228 | `nsmallest` keeps min(k, n) indices, ascending by distance with ties in row order |
| `QueryEngine.NearestIsClosest` | server_1.py:228 | every row left out is farther than every row kept, or as far and later in the dataset |
| `QueryEngine.NearestOfFive` | server_1.py:228 | for five rows at squared distances 25, 1, 9, 1, 4 and k = 3, the result is rows 1, 3, 4 |
| `QueryEngine.NearestRecords` | server_1.py:228-233 | the `nsmallest(k, "distance")` rows, projected to the four result columns and `distance`, in that order |
| `QueryEngine.NearestRecordsCharacterized` | server_1.py:224-233 | the result has min(k, n) records, ascending by distance with ties in row order; no row left out is nearer than a row kept; each record is the row's five projected columns with its distance |
| `QueryServer.GenerateTokenAsWritten` | server_1.py:53-61 | as written, no request is ever issued a token: a missing or empty user id gives 400, and any other user id gives 500 |
| `QueryServer.GenerateTokenAsWrittenFailsForAlice` | server_1.py:59 | a well-formed request for user "alice" gets a 500 |
| `QueryServer.DistancesKeepIndex` | server_1.py:225 | writing the distance column keeps every row's name and age indexed in the filter |
| `QueryServer.Authorized` | server_1.py:45-51 | `require_authorization` passes a request when its endpoint is one of the two token endpoints, or its Authorization header is non-empty and an existing key |
| `QueryServer.QueryAllowed` | server_1.py:100 | a query endpoint proceeds when the Query-Token header is non-empty and `validate_query_token(access_token, query_token)` holds |
| `QueryServer.ExactMatchEndpoint` | server_1.py:93-138 | `exact_match_query` in branch order: 401 unless both checks pass; 400 for a missing body, an empty `field` or a null `value`; then the filter answer and the exact-match result |
| `QueryServer.RangeQueryEndpoint` | server_1.py:140-188 | `range_query` in branch order: 401 unless both checks pass; 400 for a missing body, an empty `field` or a null bound; then the range result |
| `QueryServer.KnnEndpoint` | server_1.py:190-236 | `knn_query` in branch order: 401 and 400 (missing body or coordinate, `k` not a positive integer) leave the dataset as it was; otherwise the dataset gains its distance column and the k nearest records are returned |
| `QueryServer.Gateway.constructor` | server_1.py:35-43 | the start-up loop inserts into a fresh filter exactly the pairs ("name", name) and ("age", age) of the loaded rows |
| `QueryServer.Gateway.RequireAuthorization` | server_1.py:45-51 | lets the two token endpoints through; every other endpoint needs a non-empty Authorization header that exists in the store |
| `QueryServer.Gateway.CheckQueryToken` | server_1.py:100 | passes exactly when the Query-Token header is non-empty and bound to the presented access token |
| `QueryServer.Gateway.GenerateToken` | server_1.py:53-61 | a missing or empty user id gives 400 and issues nothing; otherwise the user's earlier keys are revoked and one new token is set and returned |
| `QueryServer.Gateway.GenerateQueryToken` | server_1.py:63-70 | no header gives 500 and an access token that does not exist gives 401, both with nothing issued; otherwise the new query token is bound to the access token |
| `QueryServer.Gateway.ExactMatchQuery` | server_1.py:93-138 | answers as the exact-match specification, reading the filter's answer and building the results with the append loop |
| `QueryServer.Gateway.RangeQuery` | server_1.py:140-188 | answers as the range specification |
| `QueryServer.Gateway.KnnQuery` | server_1.py:190-236 | answers as the nearest-neighbour specification; the dataset gains its distance column exactly when the query succeeds; the filter invariant is kept |
| `QueryServer.QueriesNeedBothTokens` | server_1.py:96-101 | exact match, range and KNN answer 401, and KNN leaves the dataset unchanged, without a live access token and a query token bound to it |
| `QueryServer.StoredValueIsFound` | server_1.py:41-43 | with the start-up invariant, an exact match on any stored row's name or age passes the filter and returns that row's projection |
| `QueryServer.QueryTokenPassesAuthorization` | server_1.py:50 | a query token sent as the Authorization header passes `require_authorization` on every endpoint |
| `QueryServer.QueryTokensSurviveRevocation` | server_1.py:59-60 | re-issuing a user's token kills their old access tokens, but a live query token bound to one of them survives and still passes `require_authorization` on every endpoint, so it can still mint query tokens |
| `WriteServer.AppendKeepsNamesIndexed` | server_0.py:56-59 | appending a row whose name was just indexed keeps every stored name indexed |
| `WriteServer.AddDataResponse` | server_0.py:47-63 | `add_data` in branch order: 401 without a non-empty live token; 400 for a missing or empty body; 500 when the body has no `name` (KeyError); otherwise success |
| `WriteServer.AddDataRejections` | server_0.py:47-56 | a missing or dead token gives 401; a missing or empty body gives 400; a body without `name` gives 500; success happens exactly with a live token and a body that has a name |
| `WriteServer.WriteServer.constructor` | server_0.py:26-30 | the start-up loop inserts exactly the pairs ("Name", name) of the loaded rows |
| `WriteServer.WriteServer.GenerateToken` | server_0.py:33-41 | a missing or empty user id gives 400 with nothing stored; otherwise one new token is set for the user and previous tokens are kept |
| `WriteServer.WriteServer.AddData` | server_0.py:44-63 | on success exactly one row is appended at the end and its name is inserted in the filter; on every error the dataset and the filter are unchanged; the name invariant is kept |

## Findings

| source | as written | input that shows it | evidently intended | confidence | as-written member | corrected member |
|---|---|---|---|---|---|---|
| server_1.py:59 | `generate_token` calls `token_manager.revoke_tokens_for_user`, which `TokenManager` (token_manager.py) does not define, so every request with a user id raises AttributeError and gets a 500 | POST /generate_token with `{"user_id": "alice"}` | revoke the user's earlier access tokens, then issue and return a new one | not executed | `QueryServer.GenerateTokenAsWritten` (with `QueryServer.GenerateTokenAsWrittenFailsForAlice`) | `QueryServer.Gateway.GenerateToken` (with `TokenStore.TokenManager.RevokeTokensForUser` and `TokenStore.ReissueLeavesOneToken`) |

## Left out

- paillier.py and server_2.py, the encryption of `billing_amount` (server_1.py:23-32) and the `/decrypt_sum` forwarding (server_1.py:74-91). These are the homomorphic cryptosystem and an HTTP call to another service. paillier.py and server_2.py are not part of this model. The gateway's `before_request` still covers the forwarding route (`DecryptSumRoute`).
- CSV loading and saving (server_1.py:13-21; server_0.py:12-23 and the `to_csv` at line 60). A failure of `to_csv` after the append is not modelled. The loaded table is an input.
- `view_data` (server_0.py:66-69), Flask routing and JSON parsing. Request bodies are typed records. A JSON value of another type (a float or boolean `k`, a list body, a non-string field name, a non-numeric range bound) is not modelled.
- The Redis connection (token_manager.py:8-13) and the randomness of `secrets`. The random bytes are a parameter.
- Concurrency on the shared store, dataset and filter.
- The BloomFilter's bits and hashes. BloomFilter.py is not part of this model.
- Floating point. Coordinates, ages and bounds are integers, and pandas NaN cells are not modelled.
- `QueryEngine.WithDistances`: the distance column holds the squared distance instead of the float `sqrt`. It orders the rows the same way, but the values in the `distance` column are squares.
- `QueryServer.Gateway.KnnQuery`: the model returns an empty result on an empty dataset. How pandas' `apply` behaves on an empty frame is not modelled.
- `WriteServer.WriteServer.AddData`: the appended row keeps only its own keys, and the earlier rows keep theirs. `pd.concat` fills NaN into the new row for columns it lacks, and into every earlier row for any new key in the body; neither is modelled.
- `Membership.BloomFilter.Add`: the contract only says the reported pairs grow by at least the added one. Which other pairs become false positives depends on the hashes, which are not shown.
- The stored dataset is taken to carry the columns that server_1's queries read: name, age, hospital, medical_condition, insurance_provider, and numeric latitude and longitude. Without them pandas raises KeyError, which is not modelled for these fixed columns. It is modelled for a user-supplied exact-match field.
- `WriteServer.WriteServer.constructor`: every loaded row must carry `name`. Without it, the start-up loop at server_0.py:30 raises KeyError at import, which is not modelled.
