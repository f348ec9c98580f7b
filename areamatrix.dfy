/**
 * Assembly of the boundary area matrix of a mesh with n vertices: for each
 * position k of the ordered boundary loop, with i its vertex and j the next
 * vertex around the loop, four triplets of value ±1/2 connect the u-block
 * [0, n) and the v-block [n, 2n) of a 2n x 2n matrix; the triplets are summed
 * into two sparse matrices and the result is their average.
 */
module AreaMatrix {

  /** One (row, column, value) entry handed to the sparse-matrix assembly. */
  datatype Triplet = Triplet(row: int, col: int, value: real)

  function Transpose(t: Triplet): Triplet {
    Triplet(t.col, t.row, t.value)
  }

  function Transposed(ts: seq<Triplet>): (r: seq<Triplet>)
    ensures |r| == |ts|
  {
    seq(|ts|, p requires 0 <= p < |ts| => Transpose(ts[p]))
  }

  /** The vertex after position k of the boundary loop: the next entry, and
      the first entry after the last one. */
  function Successor(bnd: seq<int>, k: int): (j: int)
    requires 0 <= k < |bnd|
    ensures j == bnd[(k + 1) % |bnd|]
  {
    if k + 1 == |bnd| then bnd[0] else bnd[k + 1]
  }

  /** The two triplets pushed into the aux list at loop position k. */
  function AuxPair(n: int, bnd: seq<int>, k: int): seq<Triplet>
    requires 0 <= k < |bnd|
  {
    var i, j := bnd[k], Successor(bnd, k);
    [Triplet(i + n, j, -0.5), Triplet(i, j + n, 0.5)]
  }

  /** The two triplets pushed into the auxT list at loop position k. */
  function AuxTPair(n: int, bnd: seq<int>, k: int): seq<Triplet>
    requires 0 <= k < |bnd|
  {
    var i, j := bnd[k], Successor(bnd, k);
    [Triplet(j, i + n, -0.5), Triplet(j + n, i, 0.5)]
  }

  /** The aux list after the first `count` loop positions: two triplets per
      position, in loop order. */
  function AuxTriplets(n: int, bnd: seq<int>, count: nat): (ts: seq<Triplet>)
    requires count <= |bnd|
    ensures |ts| == 2 * count
    ensures forall k :: 0 <= k < count ==>
              ts[2 * k] == AuxPair(n, bnd, k)[0] && ts[2 * k + 1] == AuxPair(n, bnd, k)[1]
  {
    if count == 0 then [] else AuxTriplets(n, bnd, count - 1) + AuxPair(n, bnd, count - 1)
  }

  /** The auxT list after the first `count` loop positions. */
  function AuxTTriplets(n: int, bnd: seq<int>, count: nat): (ts: seq<Triplet>)
    requires count <= |bnd|
    ensures |ts| == 2 * count
    ensures forall k :: 0 <= k < count ==>
              ts[2 * k] == AuxTPair(n, bnd, k)[0] && ts[2 * k + 1] == AuxTPair(n, bnd, k)[1]
  {
    if count == 0 then [] else AuxTTriplets(n, bnd, count - 1) + AuxTPair(n, bnd, count - 1)
  }

  /** Each auxT triplet is the transpose of the aux triplet pushed beside it. */
  lemma AuxTIsTransposed(n: int, bnd: seq<int>, count: nat)
    requires count <= |bnd|
    ensures AuxTTriplets(n, bnd, count) == Transposed(AuxTriplets(n, bnd, count))
  {
    var a, t := AuxTriplets(n, bnd, count), AuxTTriplets(n, bnd, count);
    forall p | 0 <= p < |t|
      ensures t[p] == Transpose(a[p])
    {
      var k := p / 2;
      assert a[2 * k] == AuxPair(n, bnd, k)[0] && a[2 * k + 1] == AuxPair(n, bnd, k)[1];
      assert t[2 * k] == AuxTPair(n, bnd, k)[0] && t[2 * k + 1] == AuxTPair(n, bnd, k)[1];
    }
  }

  /** Whether a triplet joins the u-block [0, n) and the v-block [n, 2n). */
  predicate CrossesBlocks(t: Triplet, n: int) {
    || (0 <= t.row < n && n <= t.col < 2 * n)
    || (n <= t.row < 2 * n && 0 <= t.col < n)
  }

  /** With every boundary index a vertex, every triplet of either list has one
      index in [0, n) and the other in [n, 2n), so it fits the 2n x 2n matrices. */
  lemma TripletsCrossBlocks(n: int, bnd: seq<int>)
    requires forall k :: 0 <= k < |bnd| ==> 0 <= bnd[k] < n
    ensures forall p :: 0 <= p < 2 * |bnd| ==> CrossesBlocks(AuxTriplets(n, bnd, |bnd|)[p], n)
    ensures forall p :: 0 <= p < 2 * |bnd| ==> CrossesBlocks(AuxTTriplets(n, bnd, |bnd|)[p], n)
  {
    var a, t := AuxTriplets(n, bnd, |bnd|), AuxTTriplets(n, bnd, |bnd|);
    forall p | 0 <= p < 2 * |bnd|
      ensures CrossesBlocks(a[p], n) && CrossesBlocks(t[p], n)
    {
      var k := p / 2;
      assert 0 <= Successor(bnd, k) < n;
      assert a[2 * k] == AuxPair(n, bnd, k)[0] && a[2 * k + 1] == AuxPair(n, bnd, k)[1];
      assert t[2 * k] == AuxTPair(n, bnd, k)[0] && t[2 * k + 1] == AuxTPair(n, bnd, k)[1];
    }
  }

  /** The value setFromTriplets stores at (r, c): the sum of the values of all
      triplets at (r, c), duplicates included; 0 where there is none. */
  function SumAt(ts: seq<Triplet>, r: int, c: int): real {
    if ts == [] then 0.0
    else
      var last := ts[|ts| - 1];
      SumAt(ts[..|ts| - 1], r, c) + (if last.row == r && last.col == c then last.value else 0.0)
  }

  /** Summing the transposed triplets at (r, c) sums the originals at (c, r). */
  lemma {:induction false} SumAtTransposed(ts: seq<Triplet>, r: int, c: int)
    ensures SumAt(Transposed(ts), r, c) == SumAt(ts, c, r)
    decreases |ts|
  {
    if ts != [] {
      assert Transposed(ts)[..|ts| - 1] == Transposed(ts[..|ts| - 1]);
      SumAtTransposed(ts[..|ts| - 1], r, c);
    }
  }

  /** Nothing accumulates at a position no triplet names. */
  lemma {:induction false} SumAtAbsent(ts: seq<Triplet>, r: int, c: int)
    requires forall p :: 0 <= p < |ts| ==> ts[p].row != r || ts[p].col != c
    ensures SumAt(ts, r, c) == 0.0
    decreases |ts|
  {
    if ts != [] {
      SumAtAbsent(ts[..|ts| - 1], r, c);
    }
  }

  /** The entry A(r, c) of the boundary area matrix: the average of the
      summed aux and auxT lists at (r, c). */
  function AreaEntry(n: int, bnd: seq<int>, r: int, c: int): real {
    (SumAt(AuxTriplets(n, bnd, |bnd|), r, c) + SumAt(AuxTTriplets(n, bnd, |bnd|), r, c)) / 2.0
  }

  /** The summed auxT matrix is the transpose of the summed aux matrix. */
  lemma AuxTSumIsTranspose(n: int, bnd: seq<int>, r: int, c: int)
    ensures SumAt(AuxTTriplets(n, bnd, |bnd|), r, c) == SumAt(AuxTriplets(n, bnd, |bnd|), c, r)
  {
    AuxTIsTransposed(n, bnd, |bnd|);
    SumAtTransposed(AuxTriplets(n, bnd, |bnd|), r, c);
  }

  /** The boundary area matrix is symmetric. */
  lemma AreaSymmetric(n: int, bnd: seq<int>, r: int, c: int)
    ensures AreaEntry(n, bnd, r, c) == AreaEntry(n, bnd, c, r)
  {
    AuxTSumIsTranspose(n, bnd, r, c);
    AuxTSumIsTranspose(n, bnd, c, r);
  }

  /** Both diagonal n x n blocks of the boundary area matrix are zero. */
  lemma AreaDiagonalBlocksZero(n: int, bnd: seq<int>, r: int, c: int)
    requires forall k :: 0 <= k < |bnd| ==> 0 <= bnd[k] < n
    requires (0 <= r < n && 0 <= c < n) || (n <= r < 2 * n && n <= c < 2 * n)
    ensures AreaEntry(n, bnd, r, c) == 0.0
  {
    TripletsCrossBlocks(n, bnd);
    var a, t := AuxTriplets(n, bnd, |bnd|), AuxTTriplets(n, bnd, |bnd|);
    assert forall p :: 0 <= p < |a| ==> CrossesBlocks(a[p], n);
    assert forall p :: 0 <= p < |t| ==> CrossesBlocks(t[p], n);
    SumAtAbsent(a, r, c);
    SumAtAbsent(t, r, c);
  }

  /** Without a boundary the matrix is all zero. */
  lemma EmptyBoundaryGivesZero(n: int, r: int, c: int)
    ensures AreaEntry(n, [], r, c) == 0.0
  {
  }

  /** setFromTriplets: a fresh rows x cols matrix holding, at each position,
      the sum of the values of the triplets there. */
  method SetFromTriplets(rows: nat, cols: nat, ts: seq<Triplet>) returns (M: array2<real>)
    requires forall p :: 0 <= p < |ts| ==> 0 <= ts[p].row < rows && 0 <= ts[p].col < cols
    ensures fresh(M)
    ensures M.Length0 == rows && M.Length1 == cols
    ensures forall r, c :: 0 <= r < rows && 0 <= c < cols ==> M[r, c] == SumAt(ts, r, c)
  {
    M := new real[rows, cols]((r, c) => 0.0);
    var p := 0;
    while p < |ts|
      invariant 0 <= p <= |ts|
      invariant forall r, c :: 0 <= r < rows && 0 <= c < cols ==> M[r, c] == SumAt(ts[..p], r, c)
    {
      var t := ts[p];
      assert ts[..p + 1][..p] == ts[..p];
      M[t.row, t.col] := M[t.row, t.col] + t.value;
      p := p + 1;
    }
    assert ts[..p] == ts;
  }

  /** The loop of areamatrix: for each boundary position, two triplets pushed
      into each list. */
  method BoundaryTriplets(n: nat, bnd: seq<int>) returns (auxTripletList: seq<Triplet>, auxTTripletList: seq<Triplet>)
    ensures auxTripletList == AuxTriplets(n, bnd, |bnd|)
    ensures auxTTripletList == AuxTTriplets(n, bnd, |bnd|)
  {
    auxTripletList, auxTTripletList := [], [];
    var k := 0;
    while k < |bnd|
      invariant 0 <= k <= |bnd|
      invariant auxTripletList == AuxTriplets(n, bnd, k)
      invariant auxTTripletList == AuxTTriplets(n, bnd, k)
    {
      var i := bnd[k];
      var j := if k + 1 == |bnd| then bnd[0] else bnd[k + 1];
      auxTripletList := auxTripletList + [Triplet(i + n, j, -0.5)];
      auxTripletList := auxTripletList + [Triplet(i, j + n, 0.5)];
      auxTTripletList := auxTTripletList + [Triplet(j, i + n, -0.5)];
      auxTTripletList := auxTTripletList + [Triplet(j + n, i, 0.5)];
      k := k + 1;
    }
  }

  /** `(aux + auxT) / 2` on two size x size matrices, into a fresh one. */
  method Average(aux: array2<real>, auxT: array2<real>, size: nat) returns (A: array2<real>)
    requires aux.Length0 == size && aux.Length1 == size
    requires auxT.Length0 == size && auxT.Length1 == size
    ensures fresh(A)
    ensures A.Length0 == size && A.Length1 == size
    ensures forall r, c :: 0 <= r < size && 0 <= c < size ==> A[r, c] == (aux[r, c] + auxT[r, c]) / 2.0
  {
    A := new real[size, size];
    var r := 0;
    while r < size
      invariant 0 <= r <= size
      invariant forall r', c :: 0 <= r' < r && 0 <= c < size ==> A[r', c] == (aux[r', c] + auxT[r', c]) / 2.0
    {
      var c := 0;
      while c < size
        invariant 0 <= c <= size
        invariant forall r', c' :: 0 <= r' < r && 0 <= c' < size ==> A[r', c'] == (aux[r', c'] + auxT[r', c']) / 2.0
        invariant forall c' :: 0 <= c' < c ==> A[r, c'] == (aux[r, c'] + auxT[r, c']) / 2.0
      {
        A[r, c] := (aux[r, c] + auxT[r, c]) / 2.0;
        c := c + 1;
      }
      r := r + 1;
    }
  }

  /** areamatrix for a mesh of n vertices whose ordered boundary loop is `bnd`. */
  method AreaMatrix(n: nat, bnd: seq<int>) returns (A: array2<real>)
    requires forall k :: 0 <= k < |bnd| ==> 0 <= bnd[k] < n
    ensures fresh(A)
    ensures A.Length0 == 2 * n && A.Length1 == 2 * n
    ensures forall r, c :: 0 <= r < 2 * n && 0 <= c < 2 * n ==> A[r, c] == AreaEntry(n, bnd, r, c)
    ensures forall r, c :: 0 <= r < 2 * n && 0 <= c < 2 * n ==> A[r, c] == A[c, r]
    ensures forall r, c :: 0 <= r < n && 0 <= c < n ==> A[r, c] == 0.0
    ensures forall r, c :: n <= r < 2 * n && n <= c < 2 * n ==> A[r, c] == 0.0
  {
    var auxTripletList, auxTTripletList := BoundaryTriplets(n, bnd);
    TripletsCrossBlocks(n, bnd);
    var aux := SetFromTriplets(2 * n, 2 * n, auxTripletList);
    var auxT := SetFromTriplets(2 * n, 2 * n, auxTTripletList);
    A := Average(aux, auxT, 2 * n);

    forall r, c | 0 <= r < 2 * n && 0 <= c < 2 * n
      ensures AreaEntry(n, bnd, r, c) == AreaEntry(n, bnd, c, r)
    {
      AreaSymmetric(n, bnd, r, c);
    }
    forall r, c | (0 <= r < n && 0 <= c < n) || (n <= r < 2 * n && n <= c < 2 * n)
      ensures AreaEntry(n, bnd, r, c) == 0.0
    {
      AreaDiagonalBlocksZero(n, bnd, r, c);
    }
  }
}
