// Reversing the orientation of a ptex file: each face's edges are listed in the opposite
// order, its adjacency record is rewritten to match, and its texels are transposed.

module Reverse {
  import opened FaceInfos

  /** The edge a face's edge becomes when the face's orientation is reversed: bottom (0)
      and left (3) trade places, as do right (1) and top (2).  Anything else reads as bottom. */
  function SwapEdge(e: int): (r: int)
    ensures 0 <= r < 4
    ensures 0 <= e < 4 ==> r == 3 - e
  {
    match e
    case 0 => 3
    case 1 => 2
    case 2 => 1
    case 3 => 0
    case _ => 0
  }

  /** The record of a reversed face: the faces across its edges in reverse order, and each
      of their edges swapped as well; the subface flag is kept. */
  function ReverseRecord(info: FaceInfo): (r: FaceInfo)
    requires Sized(info)
    ensures Sized(r) && r.isSubface == info.isSubface
    ensures forall k | 0 <= k < 4 :: r.adjfaces[k] == info.adjfaces[3 - k] && r.adjedges[k] == SwapEdge(info.adjedges[3 - k])
  {
    FaceInfo([info.adjfaces[3], info.adjfaces[2], info.adjfaces[1], info.adjfaces[0]],
             [SwapEdge(info.adjedges[3]), SwapEdge(info.adjedges[2]), SwapEdge(info.adjedges[1]), SwapEdge(info.adjedges[0])],
             info.isSubface)
  }

  /** Every edge entry of a record names an edge. */
  predicate EdgesValid(info: FaceInfo)
    requires Sized(info)
  {
    forall k | 0 <= k < 4 :: 0 <= info.adjedges[k] < 4
  }

  /** Reversing a record twice gives it back, as long as its edge entries name edges. */
  lemma ReverseRecordTwice(info: FaceInfo)
    requires Sized(info) && EdgesValid(info)
    ensures ReverseRecord(ReverseRecord(info)) == info
  {
    var r := ReverseRecord(ReverseRecord(info));
    assert r.adjfaces == info.adjfaces;
    assert r.adjedges == info.adjedges;
  }

  /** The records of all faces of a file, each reversed. */
  function ReverseAll(recs: seq<FaceInfo>): (r: seq<FaceInfo>)
    requires forall f | 0 <= f < |recs| :: Sized(recs[f])
    ensures |r| == |recs| && forall f | 0 <= f < |recs| :: r[f] == ReverseRecord(recs[f])
  {
    seq(|recs|, f requires 0 <= f < |recs| && Sized(recs[f]) => ReverseRecord(recs[f]))
  }

  /** Every record has four sides and every edge entry names an edge, as ptex's two-bit
      packing of the edge entries guarantees. */
  predicate WellFormed(recs: seq<FaceInfo>)
  {
    forall f | 0 <= f < |recs| :: Sized(recs[f]) && EdgesValid(recs[f])
  }

  /** Edge k of face f links back: if a face g lies across it, meeting g's edge e, then
      edge e of g has f across it, meeting edge k. */
  predicate LinksBack(recs: seq<FaceInfo>, f: int, k: int)
    requires WellFormed(recs) && 0 <= f < |recs| && 0 <= k < 4
  {
    var g := recs[f].adjfaces[k];
    var e := recs[f].adjedges[k];
    g == -1 || (0 <= g < |recs| && recs[g].adjfaces[e] == f && recs[g].adjedges[e] == k)
  }

  /** The records of a file agree with each other: every edge of every face links back. */
  predicate Consistent(recs: seq<FaceInfo>)
  {
    WellFormed(recs) &&
    forall f, k | 0 <= f < |recs| && 0 <= k < 4 :: LinksBack(recs, f, k)
  }

  /** Reversed records keep four sides and edge entries that name edges. */
  lemma ReverseWellFormed(recs: seq<FaceInfo>)
    requires WellFormed(recs)
    ensures WellFormed(ReverseAll(recs))
  {
    var r := ReverseAll(recs);
    forall f | 0 <= f < |r|
      ensures Sized(r[f]) && EdgesValid(r[f])
    {
      assert r[f] == ReverseRecord(recs[f]);
    }
  }

  /** One link of the reversed records: edge k of reversed face f is edge 3 - k of f, so
      the face across it is reached through the link the original records agree on. */
  lemma ReverseLink(recs: seq<FaceInfo>, f: int, k: int)
    requires Consistent(recs) && 0 <= f < |recs| && 0 <= k < 4
    ensures WellFormed(ReverseAll(recs)) && LinksBack(ReverseAll(recs), f, k)
  {
    ReverseWellFormed(recs);
    var r := ReverseAll(recs);
    assert LinksBack(recs, f, 3 - k);
    var g := recs[f].adjfaces[3 - k];
    var e := recs[f].adjedges[3 - k];
    assert r[f].adjfaces[k] == g && r[f].adjedges[k] == 3 - e;
    if g != -1 {
      assert r[g].adjfaces[3 - e] == f && r[g].adjedges[3 - e] == k;
    }
  }

  /** Reversing every face keeps the records in agreement with each other. */
  lemma ReversePreservesConsistency(recs: seq<FaceInfo>)
    requires Consistent(recs)
    ensures Consistent(ReverseAll(recs))
  {
    ReverseWellFormed(recs);
    var r := ReverseAll(recs);
    forall f, k | 0 <= f < |r| && 0 <= k < 4
      ensures LinksBack(r, f, k)
    {
      ReverseLink(recs, f, k);
    }
  }

  /** Reversing every face twice gives every record back. */
  lemma ReverseAllTwice(recs: seq<FaceInfo>)
    requires WellFormed(recs)
    ensures ReverseAll(ReverseAll(recs)) == recs
  {
    forall f | 0 <= f < |recs|
      ensures ReverseRecord(ReverseRecord(recs[f])) == recs[f]
    {
      ReverseRecordTwice(recs[f]);
    }
  }

  /** The resolution of a face, as the number of texels along u and along v. */
  datatype Res = Res(u: int, v: int)

  /** The resolution a face is written with: swapped unless the face is constant. */
  function ReversedRes(res: Res, isConstant: bool): (r: Res)
    ensures r.u * r.v == res.u * res.v
    ensures isConstant ==> r == res
    ensures !isConstant ==> r.u == res.v && r.v == res.u
  {
    if isConstant then res else Res(res.v, res.u)
  }

  // ---------------------------------------------------------------------------------
  // Texel transposition

  lemma MulMono(a: int, b: int, n: int)
    requires a <= b && 0 <= n
    ensures a * n <= b * n
  {
    assert b * n - a * n == (b - a) * n;
  }

  lemma DivMod(a: int, b: int, n: int)
    requires 0 <= a && 0 <= b < n
    ensures (a * n + b) / n == a && (a * n + b) % n == b
  {
    var x := a * n + b;
    var q, r := x / n, x % n;
    assert x == q * n + r;
    assert (q - a) * n == b - r;
    if q > a {
      MulMono(1, q - a, n);
    } else if q < a {
      MulMono(1, a - q, n);
    }
  }

  lemma Below(a: int, b: int, n: int, m: int)
    requires 0 <= a < m && 0 <= b < n
    ensures a * n + b < m * n
  {
    MulMono(a + 1, m, n);
    assert (a + 1) * n == a * n + n;
  }

  lemma Split(q: int, u: int, v: int)
    requires 0 <= q < u * v && 0 < v
    ensures 0 <= q / v < u && 0 <= q % v < v
  {
    var a := q / v;
    assert q == a * v + q % v;
    if a >= u {
      MulMono(u, a, v);
    }
    if a < 0 {
      MulMono(a, -1, v);
    }
  }

  /** Where output byte p of a face transposed from u by v texels of ds bytes is read from:
      texel (i, j) of the output, at row i of v texels, is texel (j, i) of the input, at
      row j of u texels. */
  function TexelSource(ds: int, u: int, v: int, p: int): (r: int)
    requires 0 < ds && 0 < v && 0 <= p < u * v * ds
    ensures 0 <= r < u * v * ds
  {
    var q := p / ds;
    var c := p % ds;
    Split(p, u * v, ds);
    Split(q, u, v);
    Below(q % v, q / v, u, v);
    Below((q % v) * u + q / v, c, ds, v * u);
    ((q % v) * u + q / v) * ds + c
  }

  lemma TexelSourceOf(ds: int, u: int, v: int, i: int, j: int, c: int)
    requires 0 <= i < u && 0 <= j < v && 0 <= c < ds
    ensures 0 <= (i * v + j) * ds + c < u * v * ds && 0 <= (j * u + i) * ds + c < u * v * ds
    ensures TexelSource(ds, u, v, (i * v + j) * ds + c) == (j * u + i) * ds + c
  {
    Below(i, j, v, u);
    Below(i * v + j, c, ds, u * v);
    Below(j, i, u, v);
    Below(j * u + i, c, ds, v * u);
    DivMod(i * v + j, c, ds);
    DivMod(i, j, v);
  }

  /** A face's texels transposed from u by v texels of ds bytes each, into the buffer o. */
  function Transposed<T>(d: seq<T>, o: seq<T>, ds: int, u: int, v: int): (r: seq<T>)
    requires 0 <= ds && 0 <= u && 0 <= v && u * v * ds <= |d| && u * v * ds <= |o|
    ensures |r| == |o|
  {
    seq(|o|, p requires 0 <= p < |o| => if p < u * v * ds && 0 < ds && 0 < v then d[TexelSource(ds, u, v, p)] else o[p])
  }

  /** The first n bytes of o are those of target, the others those of before. */
  ghost predicate Progress<T>(o: seq<T>, target: seq<T>, before: seq<T>, n: int)
  {
    |o| == |target| == |before| && 0 <= n <= |o| &&
    (forall q | 0 <= q < n :: o[q] == target[q]) && (forall q | n <= q < |o| :: o[q] == before[q])
  }

  /** swap_data, with the output row length corrected to v texels: every texel (i, j) of the
      input, at row j of u texels, is copied to texel (j, i) of the output, at row i of v
      texels; the rest of the output buffer is left as it was. */
  method SwapData<T>(ds: int, u: int, v: int, data: array<T>, out: array<T>)
    requires data != out && 0 <= ds && 0 <= u && 0 <= v && u * v * ds <= data.Length && u * v * ds <= out.Length
    modifies out
    ensures out[..] == Transposed(data[..], old(out[..]), ds, u, v)
  {
    ghost var before := out[..];
    ghost var target := Transposed(data[..], before, ds, u, v);
    var i := 0;
    while i < u
      invariant 0 <= i <= u && Progress(out[..], target, before, i * v * ds)
    {
      var j := 0;
      while j < v
        invariant 0 <= j <= v && Progress(out[..], target, before, (i * v + j) * ds)
      {
        var c := 0;
        while c < ds
          invariant 0 <= c <= ds && Progress(out[..], target, before, (i * v + j) * ds + c)
        {
          TexelSourceOf(ds, u, v, i, j, c);
          out[(i * v + j) * ds + c] := data[(j * u + i) * ds + c];
          c := c + 1;
        }
        assert (i * v + j) * ds + ds == (i * v + (j + 1)) * ds;
        j := j + 1;
      }
      assert (i * v + v) * ds == (i + 1) * v * ds;
      i := i + 1;
    }
  }

  /** Transposing back, with the dimensions swapped, restores every texel of the face. */
  lemma TransposedTwice<T>(d: seq<T>, o: seq<T>, o2: seq<T>, ds: int, u: int, v: int)
    requires 0 <= ds && 0 <= u && 0 <= v && u * v * ds <= |d| && u * v * ds <= |o| && u * v * ds <= |o2|
    ensures var t := Transposed(d, o, ds, u, v);
      v * u * ds <= |t| &&
      Transposed(t, o2, ds, v, u)[..u * v * ds] == d[..u * v * ds]
  {
    var t := Transposed(d, o, ds, u, v);
    var r := Transposed(t, o2, ds, v, u);
    forall p | 0 <= p < u * v * ds
      ensures r[p] == d[p]
    {
      TransposedTwiceAt(d, o, o2, ds, u, v, p);
    }
  }

  /** Byte p of a face survives transposing there and back. */
  lemma TransposedTwiceAt<T>(d: seq<T>, o: seq<T>, o2: seq<T>, ds: int, u: int, v: int, p: int)
    requires 0 <= ds && 0 <= u && 0 <= v && u * v * ds <= |d| && u * v * ds <= |o| && u * v * ds <= |o2|
    requires 0 <= p < u * v * ds
    ensures var t := Transposed(d, o, ds, u, v);
      v * u * ds <= |t| && Transposed(t, o2, ds, v, u)[p] == d[p]
  {
    var q, c := p / ds, p % ds;
    Split(p, v * u, ds);
    Split(q, v, u);
    var a, b := q / u, q % u;
    assert q == a * u + b;
    assert p == (a * u + b) * ds + c;
    TexelSourceOf(ds, v, u, a, b, c);
    var p2 := TexelSource(ds, v, u, p);
    assert p2 == (b * v + a) * ds + c;
    TexelSourceOf(ds, u, v, b, a, c);
    assert TexelSource(ds, u, v, p2) == p;
  }

  /** Where swap_data as written puts input texel (i, j): at row i of u texels, whatever
      the face's v. */
  function WriteOffsetAsWritten(ds: int, u: int, i: int, j: int): (r: int)
    ensures 0 <= ds && 0 <= u && 0 <= i && 0 <= j ==> r >= 0
  {
    (i * u + j) * ds
  }

  /** On a square face the stride as written is the corrected one: each byte it writes
      receives the byte the corrected transpose puts there. */
  lemma AsWrittenSquareAgrees(ds: int, u: int, i: int, j: int, c: int)
    requires 0 <= i < u && 0 <= j < u && 0 <= c < ds
    ensures 0 <= WriteOffsetAsWritten(ds, u, i, j) + c < u * u * ds
    ensures TexelSource(ds, u, u, WriteOffsetAsWritten(ds, u, i, j) + c) == (j * u + i) * ds + c
  {
    TexelSourceOf(ds, u, u, i, j, c);
  }

  /** For a face 2 texels wide and 1 high, with texels of 1 byte, swap_data as written puts
      texel (1, 0) at offset 2, past the face's 2 bytes, and leaves offset 1 unwritten; the
      corrected placement puts it at offset 1. */
  lemma SwapDataAsWrittenOverruns()
    ensures WriteOffsetAsWritten(1, 2, 1, 0) == 2 && 2 >= 2 * 1 * 1
    ensures WriteOffsetAsWritten(1, 2, 0, 0) == 0
    ensures TexelSource(1, 2, 1, (1 * 1 + 0) * 1 + 0) == (0 * 2 + 1) * 1 + 0
  {
    TexelSourceOf(1, 2, 1, 1, 0, 0);
  }
}
