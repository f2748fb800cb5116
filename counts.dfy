/** Closed-form sizes of the subdivided half-edge mesh.

    An input face with nv corners is kept as it is when nv == 4; otherwise it is split
    into nv quad subfaces, each of which needs four half-edges of its own, while the
    original ring of nv half-edges is kept for bookkeeping.  The arenas of the mesh are
    sized once from these sums, before any edge is linked. */
module Counts {

  /** Ptex faces one input face turns into. */
  function PtexFacesOf(nv: int): int { if nv == 4 then 1 else nv }

  /** Face records one input face occupies in the arena (itself plus its subfaces). */
  function FacesOf(nv: int): int { if nv == 4 then 1 else nv + 1 }

  /** Half-edge records one input face occupies (its ring plus four per subface). */
  function EdgesOf(nv: int): int { if nv == 4 then 4 else nv * 4 + nv }

  /** Subfaces one input face is split into. */
  function SubfacesOf(nv: int): int { if nv == 4 then 0 else nv }

  /** Corners of the faces before face f: the offset of face f in the flattened vertex list. */
  function Offset(nverts: seq<int>, f: nat): (o: int)
    requires f <= |nverts|
    ensures NonNegative(nverts) ==> o >= 0
  {
    if f == 0 then 0 else Offset(nverts, f - 1) + nverts[f - 1]
  }

  /** Ptex faces produced by the faces before face f: the first ptex index of face f. */
  function PtexBefore(nverts: seq<int>, f: nat): (p: int)
    requires f <= |nverts|
    ensures NonNegative(nverts) ==> p >= 0
  {
    if f == 0 then 0 else PtexBefore(nverts, f - 1) + PtexFacesOf(nverts[f - 1])
  }

  /** Face records needed by the faces before face f. */
  function FacesBefore(nverts: seq<int>, f: nat): int
    requires f <= |nverts|
  {
    if f == 0 then 0 else FacesBefore(nverts, f - 1) + FacesOf(nverts[f - 1])
  }

  /** Half-edge records needed by the faces before face f. */
  function EdgesBefore(nverts: seq<int>, f: nat): int
    requires f <= |nverts|
  {
    if f == 0 then 0 else EdgesBefore(nverts, f - 1) + EdgesOf(nverts[f - 1])
  }

  /** Subfaces created for the faces before face f. */
  function SubBefore(nverts: seq<int>, f: nat): (s: int)
    requires f <= |nverts|
    ensures NonNegative(nverts) ==> s >= 0
  {
    if f == 0 then 0 else SubBefore(nverts, f - 1) + SubfacesOf(nverts[f - 1])
  }

  /** Total ptex faces of a mesh. */
  function PtexFaces(nverts: seq<int>): int { PtexBefore(nverts, |nverts|) }
  /** Size of the face arena. */
  function TotalFaces(nverts: seq<int>): int { FacesBefore(nverts, |nverts|) }
  /** Size of the half-edge arena. */
  function TotalEdges(nverts: seq<int>): int { EdgesBefore(nverts, |nverts|) }
  /** Length of the flattened vertex list. */
  function FvCount(nverts: seq<int>): int { Offset(nverts, |nverts|) }

  /** The largest of 0 and the first n vertex indices. */
  function MaxVertex(verts: seq<int>, n: nat): (m: int)
    requires n <= |verts|
    ensures m >= 0
    ensures forall i :: 0 <= i < n ==> verts[i] <= m
    ensures m == 0 || exists i :: 0 <= i < n && verts[i] == m
  {
    if n == 0 then 0
    else if MaxVertex(verts, n - 1) < verts[n - 1] then verts[n - 1]
    else MaxVertex(verts, n - 1)
  }

  predicate NonNegative(nverts: seq<int>)
  {
    forall f :: 0 <= f < |nverts| ==> nverts[f] >= 0
  }

  lemma {:induction false} OffsetMono(nverts: seq<int>, f: nat, g: nat)
    requires NonNegative(nverts)
    requires f <= g <= |nverts|
    ensures Offset(nverts, f) <= Offset(nverts, g)
    decreases g - f
  {
    if f < g {
      OffsetMono(nverts, f, g - 1);
    }
  }

  lemma {:induction false} SubBeforeMono(nverts: seq<int>, f: nat, g: nat)
    requires NonNegative(nverts)
    requires f <= g <= |nverts|
    ensures SubBefore(nverts, f) <= SubBefore(nverts, g)
    decreases g - f
  {
    if f < g {
      SubBeforeMono(nverts, f, g - 1);
    }
  }

  lemma {:induction false} PtexBeforeMono(nverts: seq<int>, f: nat, g: nat)
    requires NonNegative(nverts)
    requires f <= g <= |nverts|
    ensures PtexBefore(nverts, f) <= PtexBefore(nverts, g)
    decreases g - f
  {
    if f < g {
      PtexBeforeMono(nverts, f, g - 1);
    }
  }

  /** The face arena holds every input face and every subface. */
  lemma {:induction false} FacesSplit(nverts: seq<int>, f: nat)
    requires f <= |nverts|
    ensures FacesBefore(nverts, f) == f + SubBefore(nverts, f)
  {
    if f > 0 {
      FacesSplit(nverts, f - 1);
    }
  }

  /** The edge arena holds every input corner and four edges per subface. */
  lemma {:induction false} EdgesSplit(nverts: seq<int>, f: nat)
    requires f <= |nverts|
    ensures EdgesBefore(nverts, f) == Offset(nverts, f) + 4 * SubBefore(nverts, f)
  {
    if f > 0 {
      EdgesSplit(nverts, f - 1);
    }
  }

  /** count_mesh_elems: the three arena and face totals, accumulated face by face. */
  method CountMeshElems(nverts: seq<int>) returns (totalFaces: int, totalEdges: int, ptexFaces: int)
    ensures ptexFaces == PtexFaces(nverts)
    ensures totalFaces == TotalFaces(nverts) == |nverts| + SubBefore(nverts, |nverts|)
    ensures totalEdges == TotalEdges(nverts) == FvCount(nverts) + 4 * SubBefore(nverts, |nverts|)
  {
    ptexFaces, totalFaces, totalEdges := 0, 0, 0;
    var face := 0;
    while face < |nverts|
      invariant 0 <= face <= |nverts|
      invariant ptexFaces == PtexBefore(nverts, face)
      invariant totalFaces == FacesBefore(nverts, face)
      invariant totalEdges == EdgesBefore(nverts, face)
    {
      var nv := nverts[face];
      if nv == 4 {
        totalFaces := totalFaces + 1;
        totalEdges := totalEdges + 4;
        ptexFaces := ptexFaces + 1;
      } else {
        ptexFaces := ptexFaces + nv;
        totalFaces := totalFaces + nv + 1;
        totalEdges := totalEdges + nv * 4 + nv;
      }
      face := face + 1;
    }
    FacesSplit(nverts, |nverts|);
    EdgesSplit(nverts, |nverts|);
  }

  /** count_mesh_vertices: fvcount is the length of the flattened vertex list and vcount
      one more than the largest vertex index (at least 1). */
  method CountMeshVertices(nverts: seq<int>, verts: seq<int>) returns (vcount: int, fvcount: int)
    requires NonNegative(nverts)
    requires FvCount(nverts) <= |verts|
    ensures fvcount == FvCount(nverts)
    ensures vcount == MaxVertex(verts, fvcount) + 1
    ensures vcount >= 1 && forall i :: 0 <= i < fvcount ==> verts[i] < vcount
  {
    vcount, fvcount := 0, 0;
    var face := 0;
    OffsetMono(nverts, 0, |nverts|);
    while face < |nverts|
      invariant 0 <= face <= |nverts|
      invariant fvcount == Offset(nverts, face) <= FvCount(nverts)
      invariant vcount == MaxVertex(verts, fvcount)
    {
      OffsetMono(nverts, face + 1, |nverts|);
      var nv := nverts[face];
      var i := fvcount;
      while i < fvcount + nv
        invariant fvcount <= i <= fvcount + nv
        invariant vcount == MaxVertex(verts, i)
      {
        vcount := if verts[i] < vcount then vcount else verts[i];
        i := i + 1;
      }
      fvcount := fvcount + nv;
      face := face + 1;
    }
    vcount := vcount + 1;
  }

  /** last_vertex: the largest vertex index of the input (0 when all are negative or there
      are none); the subdivision numbers its new vertices from one past it. */
  method LastVertex(nverts: seq<int>, verts: seq<int>) returns (last: int)
    requires NonNegative(nverts)
    requires FvCount(nverts) <= |verts|
    ensures last == MaxVertex(verts, FvCount(nverts))
    ensures last >= 0 && forall i :: 0 <= i < FvCount(nverts) ==> verts[i] <= last
  {
    last := 0;
    var off := 0;
    var n := 0;
    OffsetMono(nverts, 0, |nverts|);
    while n < |nverts|
      invariant 0 <= n <= |nverts|
      invariant off == Offset(nverts, n) <= FvCount(nverts)
      invariant last == MaxVertex(verts, off)
    {
      OffsetMono(nverts, n + 1, |nverts|);
      var nv := nverts[n];
      var i := off;
      while i < off + nv
        invariant off <= i <= off + nv
        invariant last == MaxVertex(verts, i)
      {
        last := if last < verts[i] then verts[i] else last;
        i := i + 1;
      }
      off := off + nv;
      n := n + 1;
    }
  }

  /** count_ptex_faces: the number of ptex faces, the same sum count_mesh_elems returns. */
  method CountPtexFaces(nverts: seq<int>) returns (ptexFaces: int)
    ensures ptexFaces == PtexFaces(nverts)
    ensures NonNegative(nverts) ==> ptexFaces >= 0
  {
    ptexFaces := 0;
    var face := 0;
    while face < |nverts|
      invariant 0 <= face <= |nverts|
      invariant ptexFaces == PtexBefore(nverts, face)
      invariant NonNegative(nverts) ==> ptexFaces >= 0
    {
      var nv := nverts[face];
      ptexFaces := ptexFaces + if nv == 4 then 1 else nv;
      face := face + 1;
    }
  }

  /** The counting loop of make_constant: one pass computing what count_mesh_elems and
      count_mesh_vertices compute separately. */
  method MakeConstantCounts(nverts: seq<int>, verts: seq<int>)
    returns (ptexFaces: int, totalFaces: int, totalEdges: int, vcount: int, fvcount: int)
    requires NonNegative(nverts)
    requires FvCount(nverts) <= |verts|
    ensures ptexFaces == PtexFaces(nverts)
    ensures totalFaces == TotalFaces(nverts) == |nverts| + SubBefore(nverts, |nverts|)
    ensures totalEdges == TotalEdges(nverts) == FvCount(nverts) + 4 * SubBefore(nverts, |nverts|)
    ensures fvcount == FvCount(nverts)
    ensures vcount == MaxVertex(verts, fvcount) + 1
  {
    ptexFaces, totalFaces, totalEdges, vcount, fvcount := 0, 0, 0, 0, 0;
    var face := 0;
    OffsetMono(nverts, 0, |nverts|);
    while face < |nverts|
      invariant 0 <= face <= |nverts|
      invariant ptexFaces == PtexBefore(nverts, face)
      invariant totalFaces == FacesBefore(nverts, face)
      invariant totalEdges == EdgesBefore(nverts, face)
      invariant fvcount == Offset(nverts, face) <= FvCount(nverts)
      invariant vcount == MaxVertex(verts, fvcount)
    {
      OffsetMono(nverts, face + 1, |nverts|);
      var nv := nverts[face];
      if nv == 4 {
        totalFaces := totalFaces + 1;
        totalEdges := totalEdges + 4;
        ptexFaces := ptexFaces + 1;
      } else {
        ptexFaces := ptexFaces + nv;
        totalFaces := totalFaces + nv + 1;
        totalEdges := totalEdges + nv * 4 + nv;
      }
      var i := fvcount;
      while i < fvcount + nv
        invariant fvcount <= i <= fvcount + nv
        invariant vcount == MaxVertex(verts, i)
      {
        vcount := if verts[i] < vcount then vcount else verts[i];
        i := i + 1;
      }
      fvcount := fvcount + nv;
      face := face + 1;
    }
    vcount := vcount + 1;
    FacesSplit(nverts, |nverts|);
    EdgesSplit(nverts, |nverts|);
  }
}
