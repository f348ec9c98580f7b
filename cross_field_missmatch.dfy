/**
 * Mismatch of a per-face cross field across every face edge of a triangle
 * mesh, and the singularity index of a vertex read off its one-ring.
 *
 * The floating-point geometry of the pairwise mismatch (rotating a direction
 * from one face plane into the next, normalising it, measuring its angle with
 * atan2 and dividing by a quarter turn) is the parameter `geometry`; the
 * precomputed normals, border flags, vertex-face and face-face tables and the
 * combing transform are inputs too.
 */
module CrossField {
  import opened Quantization

  datatype Vec3 = Vec3(x: real, y: real, z: real)

  /** The geometric prefix of the pairwise mismatch: from the direction PD1 of
      the far face, the normals of the near and far faces and the near face's
      PD1 and PD2, the signed angle of the transported direction divided by a
      quarter turn. */
  type QuarterTurnRatio = (Vec3, Vec3, Vec3, Vec3, Vec3) -> real

  /** The combing transform: from V, F, PD1 and PD2, the combed PD1 and PD2. */
  type Comb = (seq<Vec3>, seq<seq<int>>, seq<Vec3>, seq<Vec3>) -> (seq<Vec3>, seq<Vec3>)

  /** What the external providers compute from V and F: per-face normals,
      per-vertex border flags, the faces incident to each vertex and, for each
      face and local edge, the face across that edge (-1 when there is none). */
  datatype MeshTables = MeshTables(
    normals: seq<Vec3>,
    border: seq<bool>,
    vf: seq<seq<int>>,
    tt: seq<seq<int>>)

  ghost predicate IsTriangleTable(F: seq<seq<int>>) {
    forall f :: 0 <= f < |F| ==> |F[f]| == 3
  }

  /** The tables as the providers deliver them for a mesh of |F| faces. */
  ghost predicate ValidTables(F: seq<seq<int>>, t: MeshTables) {
    && IsTriangleTable(F)
    && |t.normals| == |F|
    && |t.tt| == |F|
    && (forall f :: 0 <= f < |F| ==> |t.tt[f]| == 3)
    && (forall f, e :: 0 <= f < |F| && 0 <= e < 3 ==> -1 <= t.tt[f][e] < |F|)
    && |t.vf| == |t.border|
    && (forall v, k :: 0 <= v < |t.vf| && 0 <= k < |t.vf[v]| ==> 0 <= t.vf[v][k] < |F|)
  }

  /** MissMatchByCross(f0, f1): the number of quarter turns, in {0..3}, between
      the field of f0 and the field of f1 transported into the plane of f0. */
  function CrossMismatch(geometry: QuarterTurnRatio, N: seq<Vec3>, PD1: seq<Vec3>, PD2: seq<Vec3>,
                         f0: int, f1: int): (k: int)
    requires 0 <= f0 < |N| && 0 <= f1 < |N| && |PD1| == |N| && |PD2| == |N|
    ensures 0 <= k <= 3
    ensures k == RoundHalfUp(geometry(PD1[f1], N[f0], N[f1], PD1[f0], PD2[f0])) % 4
  {
    PairMismatch(geometry(PD1[f1], N[f0], N[f1], PD1[f0], PD2[f0]))
  }

  /** What one cell of the mismatch table must hold: 0 across a border edge
      (no neighbour) or a degenerate one (the face is its own neighbour), the
      pairwise mismatch with the neighbour otherwise. */
  ghost predicate CellAgrees(v: int, f: int, nb: int, geometry: QuarterTurnRatio,
                             N: seq<Vec3>, PD1: seq<Vec3>, PD2: seq<Vec3>)
    requires 0 <= f < |N| && -1 <= nb < |N| && |PD1| == |N| && |PD2| == |N|
  {
    && (nb == -1 || nb == f ==> v == 0)
    && (nb != -1 && nb != f ==> v == CrossMismatch(geometry, N, PD1, PD2, f, nb))
  }

  /** `m` is the |F| x 3 mismatch table of the field (PD1, PD2). */
  ghost predicate IsMissmatchTable(m: array2<int>, F: seq<seq<int>>, t: MeshTables,
                                   PD1: seq<Vec3>, PD2: seq<Vec3>, geometry: QuarterTurnRatio)
    requires ValidTables(F, t) && |PD1| == |F| && |PD2| == |F|
    reads m
  {
    && m.Length0 == |F| && m.Length1 == 3
    && forall i, j :: 0 <= i < |F| && 0 <= j < 3 ==>
         CellAgrees(m[i, j], i, t.tt[i][j], geometry, t.normals, PD1, PD2)
  }

  /** Every cell of a mismatch table lies in {0..3}; in particular the -1 the
      table starts out with survives nowhere. */
  lemma MissmatchTableInRange(m: array2<int>, F: seq<seq<int>>, t: MeshTables,
                              PD1: seq<Vec3>, PD2: seq<Vec3>, geometry: QuarterTurnRatio)
    requires ValidTables(F, t) && |PD1| == |F| && |PD2| == |F|
    requires IsMissmatchTable(m, F, t, PD1, PD2, geometry)
    ensures forall i, j :: 0 <= i < |F| && 0 <= j < 3 ==> 0 <= m[i, j] <= 3
  {
    forall i, j | 0 <= i < |F| && 0 <= j < 3
      ensures 0 <= m[i, j] <= 3
    {
      assert CellAgrees(m[i, j], i, t.tt[i][j], geometry, t.normals, PD1, PD2);
    }
  }

  /** A field that every transport across an edge of the mesh carries to
      within half a quarter turn of the neighbour's own field (a flat mesh with
      a constant field, say) has mismatch 0 on every face edge. */
  lemma AlignedFieldHasZeroTable(m: array2<int>, F: seq<seq<int>>, t: MeshTables,
                                 PD1: seq<Vec3>, PD2: seq<Vec3>, geometry: QuarterTurnRatio)
    requires ValidTables(F, t) && |PD1| == |F| && |PD2| == |F|
    requires IsMissmatchTable(m, F, t, PD1, PD2, geometry)
    requires forall i, j :: 0 <= i < |F| && 0 <= j < 3 && t.tt[i][j] != -1 && t.tt[i][j] != i ==>
               -0.5 <= geometry(PD1[t.tt[i][j]], t.normals[i], t.normals[t.tt[i][j]], PD1[i], PD2[i]) < 0.5
    ensures forall i, j :: 0 <= i < |F| && 0 <= j < 3 ==> m[i, j] == 0
  {
    forall i, j | 0 <= i < |F| && 0 <= j < 3
      ensures m[i, j] == 0
    {
      var nb := t.tt[i][j];
      assert CellAgrees(m[i, j], i, nb, geometry, t.normals, PD1, PD2);
      if nb != -1 && nb != i {
        AlignedFieldsHaveZeroMismatch(geometry(PD1[nb], t.normals[i], t.normals[nb], PD1[i], PD2[i]));
      }
    }
  }

  /** The last local slot z < n of `face` that holds `vid`, or -1: the inner
      search of oneRingMissMatch, where a later match overwrites an earlier one. */
  function LastSlotBelow(face: seq<int>, vid: int, n: nat): (z: int)
    requires n <= |face|
    ensures -1 <= z < n
    ensures z == -1 <==> forall y :: 0 <= y < n ==> face[y] != vid
    ensures z >= 0 ==> face[z] == vid && forall y :: z < y < n ==> face[y] != vid
    decreases n
  {
    if n == 0 then -1
    else if face[n - 1] == vid then n - 1
    else LastSlotBelow(face, vid, n - 1)
  }

  /** Face f is a face of the mesh with `vid` as one of its corners. */
  ghost predicate Incident(F: seq<seq<int>>, f: int, vid: int) {
    0 <= f < |F| && |F[f]| == 3 && vid in F[f]
  }

  /** Every face listed in `faces` is incident to `vid`. */
  ghost predicate IncidentFaces(F: seq<seq<int>>, faces: seq<int>, vid: int) {
    forall k :: 0 <= k < |faces| ==> Incident(F, faces[k], vid)
  }

  /** The mismatch in `m` of the edge of face f that starts at vid's slot. */
  function SlotMissmatch(F: seq<seq<int>>, f: int, vid: int, m: array2<int>): int
    requires Incident(F, f, vid)
    requires m.Length0 == |F| && m.Length1 == 3
    reads m
  {
    var z := LastSlotBelow(F[f], vid, 3);
    assert z != -1 by {
      var y :| 0 <= y < 3 && F[f][y] == vid;
    }
    m[f, z]
  }

  /** The sum over `faces` of the mismatch at vid's slot. */
  function RingSum(F: seq<seq<int>>, faces: seq<int>, vid: int, m: array2<int>): int
    requires IncidentFaces(F, faces, vid)
    requires m.Length0 == |F| && m.Length1 == 3
    reads m
  {
    if faces == [] then 0
    else
      RingSum(F, faces[..|faces| - 1], vid, m) + SlotMissmatch(F, faces[|faces| - 1], vid, m)
  }

  /** Every cell of `m` lies in {0..3}. */
  ghost predicate TableInRange(m: array2<int>)
    reads m
  {
    forall i, j :: 0 <= i < m.Length0 && 0 <= j < m.Length1 ==> 0 <= m[i, j] <= 3
  }

  /** The ring sum over a concatenation splits into the two ring sums. */
  lemma {:induction false} RingSumAppend(F: seq<seq<int>>, s: seq<int>, t: seq<int>, vid: int, m: array2<int>)
    requires IncidentFaces(F, s + t, vid)
    requires m.Length0 == |F| && m.Length1 == 3
    ensures IncidentFaces(F, s, vid) && IncidentFaces(F, t, vid)
    ensures RingSum(F, s + t, vid, m) == RingSum(F, s, vid, m) + RingSum(F, t, vid, m)
    decreases |t|
  {
    assert forall k :: 0 <= k < |s| ==> (s + t)[k] == s[k];
    assert forall k :: 0 <= k < |t| ==> (s + t)[|s| + k] == t[k];
    if t == [] {
      assert s + t == s;
    } else {
      var t' := t[..|t| - 1];
      assert (s + t)[..|s + t| - 1] == s + t';
      RingSumAppend(F, s, t', vid, m);
    }
  }

  /** Taking one face out of the list removes exactly its term from the sum. */
  lemma RingSumRemove(F: seq<seq<int>>, s: seq<int>, p: int, vid: int, m: array2<int>)
    requires IncidentFaces(F, s, vid) && 0 <= p < |s|
    requires m.Length0 == |F| && m.Length1 == 3
    ensures Incident(F, s[p], vid) && IncidentFaces(F, s[..p] + s[p + 1..], vid)
    ensures RingSum(F, s, vid, m) == RingSum(F, s[..p] + s[p + 1..], vid, m) + SlotMissmatch(F, s[p], vid, m)
  {
    assert s == s[..p] + [s[p]] + s[p + 1..];
    RingSumAppend(F, s[..p] + [s[p]], s[p + 1..], vid, m);
    RingSumAppend(F, s[..p], [s[p]], vid, m);
    RingSumAppend(F, s[..p], s[p + 1..], vid, m);
  }

  /** Reordering a list of incident faces keeps every face incident. */
  lemma IncidentFacesPermutation(F: seq<seq<int>>, a: seq<int>, b: seq<int>, vid: int)
    requires IncidentFaces(F, a, vid) && multiset(a) == multiset(b)
    ensures IncidentFaces(F, b, vid)
  {
    forall k | 0 <= k < |b|
      ensures Incident(F, b[k], vid)
    {
      assert b[k] in multiset(a);
      var j :| 0 <= j < |a| && a[j] == b[k];
    }
  }

  /** The ring sum does not depend on the order in which the incident faces
      are listed. */
  lemma {:induction false} RingSumPermutation(F: seq<seq<int>>, a: seq<int>, b: seq<int>, vid: int, m: array2<int>)
    requires IncidentFaces(F, a, vid) && multiset(a) == multiset(b)
    requires m.Length0 == |F| && m.Length1 == 3
    ensures IncidentFaces(F, b, vid)
    ensures RingSum(F, a, vid, m) == RingSum(F, b, vid, m)
    decreases |a|
  {
    IncidentFacesPermutation(F, a, b, vid);
    if a == [] {
      assert |b| == |multiset(b)| == 0;
    } else {
      var x := a[|a| - 1];
      var a' := a[..|a| - 1];
      assert a == a' + [x];
      assert x in multiset(b);
      var p :| 0 <= p < |b| && b[p] == x;
      var b' := b[..p] + b[p + 1..];
      assert b == b[..p] + [x] + b[p + 1..];
      assert multiset(a') == multiset(b') by {
        assert multiset(b) == multiset(b[..p]) + multiset{x} + multiset(b[p + 1..]);
        assert multiset(b') == multiset(b[..p]) + multiset(b[p + 1..]);
        assert multiset(a) == multiset(a') + multiset{x};
        assert multiset(a') == multiset(a) - multiset{x};
        assert multiset(b') == multiset(b) - multiset{x};
      }
      RingSumRemove(F, b, p, vid, m);
      RingSumPermutation(F, a', b', vid, m);
    }
  }

  /** With every cell in {0..3} the ring sum is non-negative. */
  lemma {:induction false} RingSumNonNegative(F: seq<seq<int>>, faces: seq<int>, vid: int, m: array2<int>)
    requires IncidentFaces(F, faces, vid)
    requires m.Length0 == |F| && m.Length1 == 3 && TableInRange(m)
    ensures 0 <= RingSum(F, faces, vid, m) <= 3 * |faces|
    decreases |faces|
  {
    if faces != [] {
      RingSumNonNegative(F, faces[..|faces| - 1], vid, m);
    }
  }

  /** The singularity index of a vertex from a table with cells in {0..3}: it
      lies in {0..3}, is the Euclidean remainder of the ring sum, and is the
      same for any order of the incident faces. */
  lemma SingularityIndexInRange(F: seq<seq<int>>, faces: seq<int>, reordered: seq<int>, vid: int, m: array2<int>)
    requires IncidentFaces(F, faces, vid) && multiset(faces) == multiset(reordered)
    requires m.Length0 == |F| && m.Length1 == 3 && TableInRange(m)
    ensures IncidentFaces(F, reordered, vid)
    ensures 0 <= CppRem4(RingSum(F, faces, vid, m)) <= 3
    ensures CppRem4(RingSum(F, faces, vid, m)) == RingSum(F, faces, vid, m) % 4
    ensures CppRem4(RingSum(F, faces, vid, m)) == CppRem4(RingSum(F, reordered, vid, m))
  {
    RingSumNonNegative(F, faces, vid, m);
    RingSumPermutation(F, faces, reordered, vid, m);
  }

  /** The mismatch calculator of one mesh and one field. Its tables are set
      once by the constructor and only read afterwards. */
  class MissMatchCalculator {
    const F: seq<seq<int>>
    const PD1: seq<Vec3>
    const PD2: seq<Vec3>
    const N: seq<Vec3>
    const VBorder: seq<bool>
    const VF: seq<seq<int>>
    const TT: seq<seq<int>>
    const geometry: QuarterTurnRatio

    ghost function Tables(): MeshTables {
      MeshTables(N, VBorder, VF, TT)
    }

    ghost predicate Valid() {
      ValidTables(F, Tables()) && |PD1| == |F| && |PD2| == |F|
    }

    /** The externally computed normals, border flags, vertex-face and
        face-face tables arrive in `t`. */
    constructor (F: seq<seq<int>>, PD1: seq<Vec3>, PD2: seq<Vec3>, t: MeshTables,
                 geometry: QuarterTurnRatio)
      requires ValidTables(F, t) && |PD1| == |F| && |PD2| == |F|
      ensures Valid()
      ensures this.F == F && this.PD1 == PD1 && this.PD2 == PD2 && Tables() == t
      ensures this.geometry == geometry
    {
      this.F := F;
      this.PD1 := PD1;
      this.PD2 := PD2;
      this.N := t.normals;
      this.VBorder := t.border;
      this.VF := t.vf;
      this.TT := t.tt;
      this.geometry := geometry;
    }

    /** Fills a fresh |F| x 3 table, initially all -1, cell by cell. */
    method CalculateMissmatch() returns (m: array2<int>)
      requires Valid()
      ensures fresh(m)
      ensures IsMissmatchTable(m, F, Tables(), PD1, PD2, geometry)
      ensures forall i, j :: 0 <= i < |F| && 0 <= j < 3 ==> 0 <= m[i, j] <= 3
    {
      m := new int[|F|, 3]((i, j) => -1);
      var i := 0;
      while i < |F|
        invariant 0 <= i <= |F|
        invariant forall r, c :: 0 <= r < i && 0 <= c < 3 ==>
                    CellAgrees(m[r, c], r, TT[r][c], geometry, N, PD1, PD2)
      {
        var j := 0;
        while j < 3
          invariant 0 <= j <= 3
          invariant forall r, c :: 0 <= r < i && 0 <= c < 3 ==>
                      CellAgrees(m[r, c], r, TT[r][c], geometry, N, PD1, PD2)
          invariant forall c :: 0 <= c < j ==>
                      CellAgrees(m[i, c], i, TT[i][c], geometry, N, PD1, PD2)
        {
          if i == TT[i][j] || TT[i][j] == -1 {
            m[i, j] := 0;
          } else {
            m[i, j] := CrossMismatch(geometry, N, PD1, PD2, i, TT[i][j]);
          }
          j := j + 1;
        }
        i := i + 1;
      }
      MissmatchTableInRange(m, F, Tables(), PD1, PD2, geometry);
    }

    /** The singularity index of vertex `vid` read from the mismatch table
        `mmatch`: 0 on the border, else the C++ remainder by 4 of the sum,
        over the incident faces, of the cell at the vertex's local slot. */
    method OneRingMissMatch(vid: int, mmatch: array2<int>) returns (r: int)
      requires Valid() && 0 <= vid < |VBorder|
      requires mmatch.Length0 == |F| && mmatch.Length1 == 3
      requires !VBorder[vid] ==> IncidentFaces(F, VF[vid], vid)
      ensures VBorder[vid] ==> r == 0
      ensures !VBorder[vid] ==> r == CppRem4(RingSum(F, VF[vid], vid, mmatch))
      ensures TableInRange(mmatch) ==> 0 <= r <= 3
    {
      if VBorder[vid] {
        return 0;
      }
      var faces := VF[vid];
      var missmatch := 0;
      var i := 0;
      while i < |faces|
        invariant 0 <= i <= |faces|
        invariant IncidentFaces(F, faces[..i], vid)
        invariant missmatch == RingSum(F, faces[..i], vid, mmatch)
      {
        var f := faces[i];
        var j := -1;
        var z := 0;
        while z < 3
          invariant 0 <= z <= 3
          invariant j == LastSlotBelow(F[f], vid, z)
        {
          if F[f][z] == vid {
            j := z;
          }
          z := z + 1;
        }
        assert faces[..i + 1][..i] == faces[..i];
        missmatch := missmatch + mmatch[f, j];
        i := i + 1;
      }
      assert faces[..i] == faces;
      r := CppRem4(missmatch);
      if TableInRange(mmatch) {
        RingSumNonNegative(F, faces, vid, mmatch);
      }
    }
  }

  /** cross_field_missmatch: comb the field unless it is already combed, then
      fill the mismatch table of the resulting field. */
  method CrossFieldMissmatch(V: seq<Vec3>, F: seq<seq<int>>, PD1: seq<Vec3>, PD2: seq<Vec3>,
                             isCombed: bool, comb: Comb, t: MeshTables, geometry: QuarterTurnRatio)
    returns (missmatch: array2<int>)
    requires ValidTables(F, t) && |PD1| == |F| && |PD2| == |F|
    requires !isCombed ==> |comb(V, F, PD1, PD2).0| == |F| && |comb(V, F, PD1, PD2).1| == |F|
    ensures fresh(missmatch)
    ensures isCombed ==> IsMissmatchTable(missmatch, F, t, PD1, PD2, geometry)
    ensures !isCombed ==>
      IsMissmatchTable(missmatch, F, t, comb(V, F, PD1, PD2).0, comb(V, F, PD1, PD2).1, geometry)
    ensures forall i, j :: 0 <= i < |F| && 0 <= j < 3 ==> 0 <= missmatch[i, j] <= 3
  {
    var PD1Combed, PD2Combed;
    if !isCombed {
      PD1Combed, PD2Combed := comb(V, F, PD1, PD2).0, comb(V, F, PD1, PD2).1;
    } else {
      PD1Combed, PD2Combed := PD1, PD2;
    }
    var sf := new MissMatchCalculator(F, PD1Combed, PD2Combed, t, geometry);
    missmatch := sf.CalculateMissmatch();
  }
}
