/**
 * The query engine of server_1.py: the boolean-mask selections behind
 * exact match and range queries, the fixed result projection, the
 * distance column and the stable k-smallest selection behind the
 * nearest-neighbour query.
 */
module QueryEngine {
  import opened Records

  const AgeColumn: string := "age"
  const Latitude: string := "latitude"
  const Longitude: string := "longitude"
  const DistanceColumn: string := "distance"

  /** The four columns an exact match or range query returns. */
  const ResultColumns: set<string> := {"name", "hospital", "medical_condition", "insurance_provider"}

  /** The five columns a nearest-neighbour query returns. */
  const KnnColumns: set<string> := ResultColumns + {DistanceColumn}

  // ---------------------------------------------------------------------
  // Selection by a boolean mask, `data_store[mask]`

  /** The elements of `s` that satisfy `p`, in their order in `s`. */
  function Select<T>(s: seq<T>, p: T -> bool): (r: seq<T>)
    ensures |r| <= |s|
    ensures forall x :: x in r ==> x in s && p(x)
  {
    if s == [] then []
    else if p(s[0]) then [s[0]] + Select(s[1..], p)
    else Select(s[1..], p)
  }

  /** Selecting from a concatenation selects from each part, earlier part first. */
  lemma {:induction false} SelectAppend<T>(a: seq<T>, b: seq<T>, p: T -> bool)
    ensures Select(a + b, p) == Select(a, p) + Select(b, p)
  {
    if a == [] {
      assert a + b == b;
    } else {
      assert (a + b)[1..] == a[1..] + b;
      SelectAppend(a[1..], b, p);
    }
  }

  /** Each satisfying element is kept as often as it occurs; the others are dropped. */
  lemma {:induction false} SelectCount<T>(s: seq<T>, p: T -> bool, x: T)
    ensures multiset(Select(s, p))[x] == if p(x) then multiset(s)[x] else 0
  {
    if s != [] {
      SelectCount(s[1..], p, x);
      assert s == [s[0]] + s[1..];
    }
  }

  /**
   * The indices below `n` of the elements satisfying `p`, ascending: the
   * reference description of a mask selection.
   */
  function Positions<T>(s: seq<T>, p: T -> bool, n: nat): (idx: seq<nat>)
    requires n <= |s|
    ensures forall j :: 0 <= j < |idx| ==> idx[j] < n && p(s[idx[j]])
    ensures forall a, b :: 0 <= a < b < |idx| ==> idx[a] < idx[b]
    ensures forall i :: 0 <= i < n && p(s[i]) ==> i in idx
  {
    if n == 0 then []
    else Positions(s, p, n - 1) + (if p(s[n - 1]) then [n - 1] else [])
  }

  /** The elements of `s` at the indices `idx`, in that order. */
  function Pick<T>(s: seq<T>, idx: seq<nat>): seq<T>
    requires forall j :: 0 <= j < |idx| ==> idx[j] < |s|
  {
    seq(|idx|, j requires 0 <= j < |idx| => s[idx[j]])
  }

  lemma PickAppend<T>(s: seq<T>, a: seq<nat>, b: seq<nat>)
    requires forall j :: 0 <= j < |a| ==> a[j] < |s|
    requires forall j :: 0 <= j < |b| ==> b[j] < |s|
    ensures Pick(s, a + b) == Pick(s, a) + Pick(s, b)
  {
  }

  /** A mask selection is exactly the satisfying elements, in ascending index order. */
  lemma {:induction false} SelectIsPositions<T>(s: seq<T>, p: T -> bool, n: nat)
    requires n <= |s|
    ensures Select(s[..n], p) == Pick(s, Positions(s, p, n))
  {
    if n > 0 {
      var before := Positions(s, p, n - 1);
      var last: seq<nat> := if p(s[n - 1]) then [n - 1] else [];
      calc {
        Select(s[..n], p);
        { assert s[..n] == s[..n - 1] + [s[n - 1]]; SelectAppend(s[..n - 1], [s[n - 1]], p); }
        Select(s[..n - 1], p) + Select([s[n - 1]], p);
        { SelectIsPositions(s, p, n - 1); assert Select([s[n - 1]], p) == Pick(s, last); }
        Pick(s, before) + Pick(s, last);
        { PickAppend(s, before, last); }
        Pick(s, before + last);
      }
    }
  }

  // ---------------------------------------------------------------------
  // Projection to the result columns

  /** A result record: the row restricted to `cols`. */
  function Project(r: Row, cols: set<string>): Row {
    map c | c in cols && c in r :: r[c]
  }

  function ProjectAll(rows: seq<Row>, cols: set<string>): seq<Row> {
    seq(|rows|, i requires 0 <= i < |rows| => Project(rows[i], cols))
  }

  /** The projections of the rows at `idx`, in that order. */
  function Listing(rows: seq<Row>, idx: seq<nat>, cols: set<string>): seq<Row>
    requires forall j :: 0 <= j < |idx| ==> idx[j] < |rows|
  {
    seq(|idx|, j requires 0 <= j < |idx| => Project(rows[idx[j]], cols))
  }

  /** The loop that builds `results` one dictionary per matched row. */
  method CollectResults(rows: seq<Row>, cols: set<string>) returns (results: seq<Row>)
    ensures results == ProjectAll(rows, cols)
  {
    results := [];
    var i := 0;
    while i < |rows|
      invariant 0 <= i <= |rows|
      invariant |results| == i
      invariant forall j :: 0 <= j < i ==> results[j] == Project(rows[j], cols)
    {
      var row := rows[i];
      var result := map c | c in cols && c in row :: row[c];
      results := results + [result];
      i := i + 1;
    }
  }

  /** A selection answered as the query endpoints do: 404 when nothing matches. */
  function Answer(rows: seq<Row>, p: Row -> bool, cols: set<string>): Response {
    var matched := Select(rows, p);
    if matched == [] then NotFound else Results(ProjectAll(matched, cols))
  }

  /**
   * An answer lists the projection of every row satisfying the predicate,
   * and of no other row, in dataset order; it is NotFound exactly when no
   * row satisfies it.
   */
  lemma AnswerLists(rows: seq<Row>, p: Row -> bool, cols: set<string>)
    ensures var idx := Positions(rows, p, |rows|);
            Answer(rows, p, cols) == if idx == [] then NotFound else Results(Listing(rows, idx, cols))
  {
    var idx := Positions(rows, p, |rows|);
    assert rows[..|rows|] == rows;
    SelectIsPositions(rows, p, |rows|);
    assert ProjectAll(Pick(rows, idx), cols) == Listing(rows, idx, cols);
  }

  /** A row satisfying the predicate always reaches the records. */
  lemma AnswerFindsRow(rows: seq<Row>, p: Row -> bool, cols: set<string>, i: nat)
    requires i < |rows| && p(rows[i])
    ensures Answer(rows, p, cols).Results?
    ensures Project(rows[i], cols) in Answer(rows, p, cols).records
  {
    AnswerLists(rows, p, cols);
    var idx := Positions(rows, p, |rows|);
    var j :| 0 <= j < |idx| && idx[j] == i;
    assert Listing(rows, idx, cols)[j] == Project(rows[i], cols);
  }

  // ---------------------------------------------------------------------
  // Exact match, lines 116-136

  /** `data_store[field] == value`, row by row. */
  function Matches(field: string, value: Value): Row -> bool {
    (r: Row) => field in r && r[field] == value
  }

  /**
   * An exact match once the filter has answered `hit`: a negative filter
   * answer is a 404 without a scan; a column that does not exist raises
   * KeyError, answered 500.
   */
  function ExactMatchResult(t: Table, field: string, value: Value, hit: bool): Response {
    if !hit then NotFound
    else if field !in t.columns then ServerError
    else Answer(t.rows, Matches(field, value), ResultColumns)
  }

  /** Exact match returns exactly the matching rows when the filter lets it scan. */
  lemma ExactMatchResultCharacterized(t: Table, field: string, value: Value, hit: bool)
    ensures !hit ==> ExactMatchResult(t, field, value, hit) == NotFound
    ensures hit && field in t.columns ==>
              var idx := Positions(t.rows, Matches(field, value), |t.rows|);
              && (forall j :: 0 <= j < |idx| ==> t.rows[idx[j]][field] == value)
              && (forall i :: 0 <= i < |t.rows| && field in t.rows[i] && t.rows[i][field] == value ==> i in idx)
              && ExactMatchResult(t, field, value, hit) == if idx == [] then NotFound else Results(Listing(t.rows, idx, ResultColumns))
  {
    if hit && field in t.columns {
      AnswerLists(t.rows, Matches(field, value), ResultColumns);
    }
  }

  // ---------------------------------------------------------------------
  // Range query, lines 164-186

  /** `(data_store[field] >= min_value) & (data_store[field] <= max_value)`. */
  function InRange(field: string, lo: int, hi: int): Row -> bool {
    (r: Row) => field in r && r[field].Num? && lo <= r[field].n <= hi
  }

  /** A range query: the field must be a column and numeric; both bounds are inclusive. */
  function RangeResult(t: Table, field: string, lo: int, hi: int): Response {
    if field !in t.columns || field !in t.numeric then BadRequest
    else Answer(t.rows, InRange(field, lo, hi), ResultColumns)
  }

  /** A range query returns the rows between the bounds, both included, and no others. */
  lemma RangeResultCharacterized(t: Table, field: string, lo: int, hi: int)
    requires WellFormed(t)
    ensures field !in t.columns || field !in t.numeric ==> RangeResult(t, field, lo, hi) == BadRequest
    ensures field in t.numeric ==>
              var idx := Positions(t.rows, InRange(field, lo, hi), |t.rows|);
              && (forall j :: 0 <= j < |idx| ==> lo <= t.rows[idx[j]][field].n <= hi)
              && (forall i :: 0 <= i < |t.rows| && lo <= t.rows[i][field].n <= hi ==> i in idx)
              && RangeResult(t, field, lo, hi) == if idx == [] then NotFound else Results(Listing(t.rows, idx, ResultColumns))
  {
    if field in t.numeric {
      AnswerLists(t.rows, InRange(field, lo, hi), ResultColumns);
      forall i | 0 <= i < |t.rows|
        ensures field in t.rows[i] && t.rows[i][field].Num?
      {
        assert RowFits(t, t.rows[i]);
      }
    }
  }

  // ---------------------------------------------------------------------
  // Nearest neighbours, lines 224-233

  /** A table whose coordinates are numeric columns. */
  ghost predicate Locatable(t: Table) {
    WellFormed(t) && Latitude in t.numeric && Longitude in t.numeric
  }

  /** Squared Euclidean distance, which orders rows as the distance does. */
  function SquaredDistance(r: Row, lat: int, lon: int): int
    requires Latitude in r && r[Latitude].Num? && Longitude in r && r[Longitude].Num?
  {
    var dLat := r[Latitude].n - lat;
    var dLon := r[Longitude].n - lon;
    dLat * dLat + dLon * dLon
  }

  /** `data_store["distance"] = ...`: a numeric column is added or overwritten, nothing else changes. */
  function WithDistances(t: Table, lat: int, lon: int): (t': Table)
    requires Locatable(t)
    ensures Locatable(t') && DistanceColumn in t'.numeric
    ensures t'.columns == t.columns + {DistanceColumn} && t'.numeric == t.numeric + {DistanceColumn}
    ensures |t'.rows| == |t.rows|
    ensures forall i :: 0 <= i < |t.rows| ==>
              && t'.rows[i][DistanceColumn] == Num(SquaredDistance(t.rows[i], lat, lon))
              && forall c :: c in t.rows[i] && c != DistanceColumn ==> c in t'.rows[i] && t'.rows[i][c] == t.rows[i][c]
  {
    var rows := seq(|t.rows|, i requires 0 <= i < |t.rows| =>
      assert RowFits(t, t.rows[i]);
      t.rows[i][DistanceColumn := Num(SquaredDistance(t.rows[i], lat, lon))]);
    Table(t.columns + {DistanceColumn}, t.numeric + {DistanceColumn}, rows)
  }

  /** The distance column's values. */
  function DistanceKeys(t: Table): (keys: seq<int>)
    requires WellFormed(t) && DistanceColumn in t.numeric
    ensures |keys| == |t.rows|
  {
    seq(|t.rows|, i requires 0 <= i < |t.rows| => assert RowFits(t, t.rows[i]); t.rows[i][DistanceColumn].n)
  }

  /** Row i comes before row j: smaller key, or equal key and earlier row. */
  predicate Before(keys: seq<int>, i: nat, j: nat)
    requires i < |keys| && j < |keys|
  {
    keys[i] < keys[j] || (keys[i] == keys[j] && i < j)
  }

  /** Indices in ascending key order, ties in row order. */
  ghost predicate SortedBy(keys: seq<int>, s: seq<nat>) {
    && (forall a :: 0 <= a < |s| ==> s[a] < |keys|)
    && (forall a, b :: 0 <= a < b < |s| ==> Before(keys, s[a], s[b]))
  }

  function Insert(keys: seq<int>, x: nat, s: seq<nat>): (r: seq<nat>)
    requires x < |keys| && SortedBy(keys, s) && x !in s
    ensures |r| == |s| + 1
    ensures forall e :: e in r <==> e == x || e in s
    ensures SortedBy(keys, r)
  {
    if s == [] then [x]
    else if Before(keys, x, s[0]) then [x] + s
    else
      var rest := Insert(keys, x, s[1..]);
      assert forall e :: e in rest ==> Before(keys, s[0], e) by {
        forall e | e in rest ensures Before(keys, s[0], e) {
          if e != x {
            var b :| 1 <= b < |s| && s[b] == e;
          }
        }
      }
      [s[0]] + rest
  }

  /** The row indices below `m`, stably sorted by key. */
  function SortIndices(keys: seq<int>, m: nat): (s: seq<nat>)
    requires m <= |keys|
    ensures |s| == m
    ensures forall e :: e in s <==> 0 <= e < m
    ensures SortedBy(keys, s)
  {
    if m == 0 then [] else Insert(keys, m - 1, SortIndices(keys, m - 1))
  }

  function Min(a: int, b: int): int {
    if a <= b then a else b
  }

  /** `nsmallest(k, "distance")` as row indices: the first k in stable sorted order. */
  function Nearest(keys: seq<int>, k: nat): (top: seq<nat>)
    ensures |top| == Min(k, |keys|)
    ensures SortedBy(keys, top)
  {
    SortIndices(keys, |keys|)[..Min(k, |keys|)]
  }

  /** Every row left out is at least as far as every row chosen, and after it on a tie. */
  lemma NearestIsClosest(keys: seq<int>, k: nat)
    ensures var top := Nearest(keys, k);
            forall a, j :: 0 <= a < |top| && 0 <= j < |keys| && j !in top ==> Before(keys, top[a], j)
  {
    var order := SortIndices(keys, |keys|);
    var top := Nearest(keys, k);
    forall a, j | 0 <= a < |top| && 0 <= j < |keys| && j !in top
      ensures Before(keys, top[a], j)
    {
      assert j in order;
      var pos :| 0 <= pos < |order| && order[pos] == j;
    }
  }

  /** Five rows at squared distances 25, 1, 9, 1, 4: the three nearest, the tie in row order. */
  lemma NearestOfFive()
    ensures Nearest([25, 1, 9, 1, 4], 3) == [1, 3, 4]
  {
    var keys := [25, 1, 9, 1, 4];
    assert SortIndices(keys, 1) == [0];
    assert SortIndices(keys, 2) == [1, 0];
    assert [1, 0][1..] == [0];
    assert SortIndices(keys, 3) == [1, 2, 0];
    assert [1, 2, 0][1..] == [2, 0];
    assert SortIndices(keys, 4) == [1, 3, 2, 0];
    assert [1, 3, 2, 0][1..] == [3, 2, 0] && [3, 2, 0][1..] == [2, 0];
    assert SortIndices(keys, 5) == [1, 3, 4, 2, 0];
  }

  /** The records of a nearest-neighbour query over a table carrying distances. */
  function NearestRecords(t: Table, k: nat): seq<Row>
    requires WellFormed(t) && DistanceColumn in t.numeric
  {
    Listing(t.rows, Nearest(DistanceKeys(t), k), KnnColumns)
  }

  /**
   * The k nearest rows: min(k, n) records, ascending by distance with ties
   * in row order, no row left out nearer than one chosen, each the
   * row's five result columns with its distance.
   */
  lemma NearestRecordsCharacterized(t: Table, lat: int, lon: int, k: nat)
    requires Locatable(t)
    ensures var t' := WithDistances(t, lat, lon);
            var top := Nearest(DistanceKeys(t'), k);
            && |NearestRecords(t', k)| == |top| == Min(k, |t.rows|)
            && (forall a :: 0 <= a < |top| ==> top[a] < |t.rows|)
            && (forall a, b :: 0 <= a < b < |top| ==>
                  var da := SquaredDistance(t.rows[top[a]], lat, lon);
                  var db := SquaredDistance(t.rows[top[b]], lat, lon);
                  da < db || (da == db && top[a] < top[b]))
            && (forall a, j :: 0 <= a < |top| && 0 <= j < |t.rows| && j !in top ==>
                  SquaredDistance(t.rows[top[a]], lat, lon) <= SquaredDistance(t.rows[j], lat, lon))
            && (forall a :: 0 <= a < |top| ==>
                  NearestRecords(t', k)[a] == Project(t'.rows[top[a]], KnnColumns)
                  && NearestRecords(t', k)[a][DistanceColumn] == Num(SquaredDistance(t.rows[top[a]], lat, lon)))
            && (ResultColumns <= t.columns ==>
                  forall a :: 0 <= a < |top| ==> NearestRecords(t', k)[a].Keys == KnnColumns)
  {
    var t' := WithDistances(t, lat, lon);
    var keys := DistanceKeys(t');
    var top := Nearest(keys, k);
    NearestIsClosest(keys, k);
    forall i | 0 <= i < |t.rows|
      ensures keys[i] == SquaredDistance(t.rows[i], lat, lon)
    {
      assert RowFits(t, t.rows[i]);
    }
  }
}
