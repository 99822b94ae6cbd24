/**
 * The `Echelle` column: `pd.cut` of the Appearances column over the left-closed
 * intervals [0,5), [5,10), [10,50), [50,100), [100,500), [500,1000), [1000,5000),
 * [5000,∞) labelled 1 to 8; a value below every interval gets no label.
 */
module Scale {
  import opened Wrappers
  import opened Locations

  /** The finite left edges of the eight intervals, in increasing order. */
  const Bounds: seq<int> := [0, 5, 10, 50, 100, 500, 1000, 5000]

  /** Label k (1 to 8) holds the counts in [Bounds[k-1], Bounds[k]), the last one unbounded above. */
  predicate InBucket(n: int, k: nat) {
    1 <= k <= |Bounds| && Bounds[k - 1] <= n && (k == |Bounds| || n < Bounds[k])
  }

  /** The label `pd.cut(..., right=False)` gives a count, if any. */
  function Echelle(n: int): (r: Option<nat>)
    ensures r.Some? <==> n >= 0
    ensures r.Some? ==> InBucket(n, r.value)
  {
    if n < 0 then None
    else if n < 5 then Some(1)
    else if n < 10 then Some(2)
    else if n < 50 then Some(3)
    else if n < 100 then Some(4)
    else if n < 500 then Some(5)
    else if n < 1000 then Some(6)
    else if n < 5000 then Some(7)
    else Some(8)
  }

  /** The intervals do not overlap: a count lies in at most one bucket. */
  lemma BucketUnique(n: int, k: nat, j: nat)
    requires InBucket(n, k) && InBucket(n, j)
    ensures k == j
  {
  }

  /** The label is exactly the bucket the count lies in. */
  lemma EchelleIsBucket(n: int, k: nat)
    requires InBucket(n, k)
    ensures Echelle(n) == Some(k)
  {
    BucketUnique(n, k, Echelle(n).value);
  }

  /** A larger count never gets a smaller label. */
  lemma EchelleMonotone(m: int, n: int)
    requires 0 <= m <= n
    ensures Echelle(m).value <= Echelle(n).value
  {
  }

  /** The left edges are inclusive: each edge opens its own bucket, and the value below it stays in the previous one. */
  lemma EchelleEdges()
    ensures Echelle(0) == Some(1) && Echelle(4) == Some(1)
    ensures Echelle(5) == Some(2) && Echelle(10) == Some(3) && Echelle(50) == Some(4) && Echelle(100) == Some(5)
    ensures Echelle(500) == Some(6) && Echelle(1000) == Some(7) && Echelle(5000) == Some(8)
    ensures Echelle(4999) == Some(7) && Echelle(-1) == None
  {
  }

  /** A row of the final table: the `ip_loc` row with its Echelle label. */
  datatype ScaledRow = ScaledRow(row: LocRow, echelle: Option<nat>)

  /** `ip_loc['Echelle'] = pd.cut(ip_loc['Appearances'], ...)`. */
  function WithEchelle(rows: seq<LocRow>): (r: seq<ScaledRow>)
    ensures |r| == |rows|
    ensures forall i :: 0 <= i < |r| ==> r[i].row == rows[i]
    ensures forall i :: 0 <= i < |r| ==> r[i].echelle.Some? && InBucket(rows[i].appearances, r[i].echelle.value)
  {
    seq(|rows|, i requires 0 <= i < |rows| => ScaledRow(rows[i], Echelle(rows[i].appearances)))
  }
}
