/** build_mesh as a whole: the input faces are added, split, and their adjacency resolved.
    The mesh it leaves is described by Built. */
module Mesh {
  import opened Counts
  import opened HalfEdge
  import opened Pairing
  import opened Builder
  import opened Layout
  import opened Build
  import opened Subdiv
  import opened Adjacency

  /** The mesh build_mesh leaves for a valid input: E0 is the split mesh before the
      adjacency loop, in the layout Stage describes with the vertex numbering starting past
      the largest input vertex; every link is within the arenas; the opposite links of all
      edges are what the edge map gives; and E is E0 with the adjacent links resolved. */
  ghost predicate Built(nverts: seq<int>, verts: seq<int>, E0: seq<Edge>, E: seq<Edge>, F: seq<Face>)
  {
    InputOk(nverts, verts) &&
    Stage(nverts, verts, InOpps(nverts, verts), MaxVertex(verts, FvCount(nverts)), E0, F, |nverts|, 0) &&
    Linked(E0, F, |E0|, |F|) && Run(Pairs(E0, |E0|)).opp == Opps(E0, |E0|) &&
    E == Resolved(nverts, InOpps(nverts, verts), E0)
  }

  /** subdiv_mesh: the face loop starting the vertex counter one past the largest input
      vertex, then the adjacency loop. */
  method SubdivMesh(b: MeshBuilder, nverts: seq<int>, verts: seq<int>) returns (ghost E0: seq<Edge>)
    requires b.Valid() && InputAdded(nverts, verts, b.mesh.edges[..], b.mesh.faces[..], |nverts|)
    requires b.nextEdge == FvCount(nverts) && b.nextFace == |nverts|
    requires b.mesh.edges.Length == TotalEdges(nverts) && b.mesh.faces.Length == TotalFaces(nverts)
    requires forall x | 0 <= x < FvCount(nverts) :: b.mesh.edges[x].opposite == InOpps(nverts, verts)[x]
    modifies b.mesh.edges, b.mesh.faces, b`edgeMap, b`nextEdge, b`nextFace
    ensures Built(nverts, verts, E0, b.mesh.edges[..], b.mesh.faces[..])
  {
    InputOkNonNegative(nverts, verts);
    var last := LastVertex(nverts, verts);
    ghost var O := InOpps(nverts, verts);
    StageStart(nverts, verts, last, b.mesh.edges[..], b.mesh.faces[..]);
    var nextV, ptex := SubdivFaces(b, nverts, verts, O, last, last + 1);
    E0 := b.mesh.edges[..];
    ResolveAdjacency(b.mesh, nverts, verts, O, last);
  }

  /** build_mesh on fresh arenas of the sizes count_mesh_elems gives: every input face is
      added in order, then the mesh is split and its adjacency resolved. */
  method BuildMesh(m: HalfMesh, nverts: seq<int>, verts: seq<int>) returns (ghost E0: seq<Edge>)
    requires InputOk(nverts, verts)
    requires m.edges.Length == TotalEdges(nverts) && m.faces.Length == TotalFaces(nverts)
    requires forall x | 0 <= x < m.edges.Length :: m.edges[x] == FreshEdge
    requires forall f | 0 <= f < m.faces.Length :: m.faces[f] == DefaultFace
    modifies m.edges, m.faces
    ensures Built(nverts, verts, E0, m.edges[..], m.faces[..])
  {
    var b := new MeshBuilder(m);
    AddInputFaces(b, nverts, verts);
    E0 := SubdivMesh(b, nverts, verts);
  }

  /** The input face whose ptex indices include p, searching from face g. */
  function PtexFaceFrom(nverts: seq<int>, p: int, g: nat): (h: int)
    requires NonNegative(nverts) && g <= |nverts| && PtexBefore(nverts, g) <= p < PtexFaces(nverts)
    ensures g <= h < |nverts| && PtexBefore(nverts, h) <= p < PtexBefore(nverts, h + 1)
    decreases |nverts| - g
  {
    if g == |nverts| then assert false; g
    else if p < PtexBefore(nverts, g + 1) then g
    else PtexFaceFrom(nverts, p, g + 1)
  }

  /** A ptex index lies in the block of exactly one input face. */
  lemma PtexFaceUnique(nverts: seq<int>, g: int, p: int)
    requires NonNegative(nverts) && 0 <= g < |nverts|
    requires PtexBefore(nverts, g) <= p < PtexBefore(nverts, g + 1)
    ensures p < PtexFaces(nverts) && PtexFaceFrom(nverts, p, 0) == g
  {
    PtexBeforeMono(nverts, g + 1, |nverts|);
    var r := PtexFaceFrom(nverts, p, 0);
    if r < g {
      PtexBeforeMono(nverts, r + 1, g);
    } else if r > g {
      PtexBeforeMono(nverts, g + 1, r);
    }
  }

  /** The face record that gets ptex index p: a kept quad, or the subface of the corner in
      slot p - PtexBefore(g) of a split face g. */
  function PtexOwner(nverts: seq<int>, p: int): (f: int)
    requires NonNegative(nverts) && 0 <= p < PtexFaces(nverts)
  {
    var g := PtexFaceFrom(nverts, p, 0);
    if Quad(nverts, g) then g else SubfaceId(nverts, g, Succ(nverts[g], p - PtexBefore(nverts, g)))
  }

  /** The split face a subface record f belongs to, and the corner it was made for. */
  function SubParent(nverts: seq<int>, f: int): (r: (int, int))
    requires NonNegative(nverts) && |nverts| <= f < TotalFaces(nverts)
    ensures 0 <= r.0 < |nverts| && !Quad(nverts, r.0) && 0 <= r.1 < nverts[r.0]
    ensures f == SubfaceId(nverts, r.0, r.1)
  {
    FacesSplit(nverts, |nverts|);
    var q := f - |nverts|;
    var g := SplitFaceFrom(nverts, q, 0);
    assert SubBefore(nverts, g + 1) == SubBefore(nverts, g) + nverts[g];
    SuccPred(nverts[g], q - SubBefore(nverts, g));
    (g, Succ(nverts[g], q - SubBefore(nverts, g)))
  }

  /** Every ptex face's index is in range and is owned by that face. */
  lemma PtexOfFace(nverts: seq<int>, verts: seq<int>, O: seq<int>, L: int, E: seq<Edge>, F: seq<Face>, f: int)
    requires Stage(nverts, verts, O, L, E, F, |nverts|, 0) && 0 <= f < |F|
    ensures -1 <= F[f].ptexIndex < PtexFaces(nverts)
    ensures F[f].ptexIndex == -1 <==> f < |nverts| && !Quad(nverts, f)
    ensures F[f].isSubface <==> f >= |nverts|
    ensures F[f].ptexIndex >= 0 ==> PtexOwner(nverts, F[f].ptexIndex) == f
  {
    InputOkNonNegative(nverts, verts);
    if f < |nverts| {
      assert F[f] == Face(f, if Quad(nverts, f) then PtexBefore(nverts, f) else -1, false, Offset(nverts, f));
      if Quad(nverts, f) {
        PtexFaceUnique(nverts, f, PtexBefore(nverts, f));
      }
    } else {
      FacesSplit(nverts, |nverts|);
      var (g, j) := SubParent(nverts, f);
      assert F[SubfaceId(nverts, g, j)] == SubFaceRec(nverts, g, j);
      SubLayoutFits(nverts, g, j);
      PtexFaceUnique(nverts, g, SubPtex(nverts, g, j));
      SuccPred(nverts[g], j);
    }
  }

  /** Every ptex index up to the count is held by its owner. */
  lemma OwnerHasPtex(nverts: seq<int>, verts: seq<int>, O: seq<int>, L: int, E: seq<Edge>, F: seq<Face>, p: int)
    requires Stage(nverts, verts, O, L, E, F, |nverts|, 0) && 0 <= p < PtexFaces(nverts)
    ensures 0 <= PtexOwner(nverts, p) < |F| && F[PtexOwner(nverts, p)].ptexIndex == p
  {
    InputOkNonNegative(nverts, verts);
    FacesSplit(nverts, |nverts|);
    var g := PtexFaceFrom(nverts, p, 0);
    if !Quad(nverts, g) {
      var slot := p - PtexBefore(nverts, g);
      assert PtexBefore(nverts, g + 1) == PtexBefore(nverts, g) + nverts[g];
      SuccPred(nverts[g], slot);
      var j := Succ(nverts[g], slot);
      SubLayoutFits(nverts, g, j);
      assert F[SubfaceId(nverts, g, j)] == SubFaceRec(nverts, g, j);
    }
  }

  /** Dense ptex numbering: the face records with a ptex index are exactly the kept quads
      and the subfaces; their indices are 0 .. PtexFaces - 1, each held by exactly one
      record (PtexOwner), so no ptex index is skipped or given twice. */
  lemma PtexNumbering(nverts: seq<int>, verts: seq<int>, E0: seq<Edge>, E: seq<Edge>, F: seq<Face>)
    requires Built(nverts, verts, E0, E, F)
    ensures forall f | 0 <= f < |F| :: -1 <= F[f].ptexIndex < PtexFaces(nverts)
    ensures forall f | 0 <= f < |F| :: F[f].ptexIndex == -1 <==> f < |nverts| && !Quad(nverts, f)
    ensures forall f | 0 <= f < |F| :: F[f].isSubface <==> f >= |nverts|
    ensures forall f | 0 <= f < |F| && F[f].ptexIndex >= 0 :: PtexOwner(nverts, F[f].ptexIndex) == f
    ensures forall p | 0 <= p < PtexFaces(nverts) :: 0 <= PtexOwner(nverts, p) < |F| && F[PtexOwner(nverts, p)].ptexIndex == p
  {
    var O, L := InOpps(nverts, verts), MaxVertex(verts, FvCount(nverts));
    forall f | 0 <= f < |F|
      ensures -1 <= F[f].ptexIndex < PtexFaces(nverts)
      ensures F[f].ptexIndex == -1 <==> f < |nverts| && !Quad(nverts, f)
      ensures F[f].isSubface <==> f >= |nverts|
      ensures F[f].ptexIndex >= 0 ==> PtexOwner(nverts, F[f].ptexIndex) == f
    {
      PtexOfFace(nverts, verts, O, L, E0, F, f);
    }
    forall p | 0 <= p < PtexFaces(nverts)
      ensures 0 <= PtexOwner(nverts, p) < |F| && F[PtexOwner(nverts, p)].ptexIndex == p
    {
      OwnerHasPtex(nverts, verts, O, L, E0, F, p);
    }
  }

  /** The inner sides of two neighbouring subfaces run opposite ways: edge 1 of the subface
      of corner j goes from the midpoint of j's edge to the centre, and edge 2 of the
      subface of the corner after j comes back. */
  lemma SubSidePairs(nverts: seq<int>, verts: seq<int>, O: seq<int>, L: int, E: seq<Edge>, F: seq<Face>, g: int, j: int)
    requires Stage(nverts, verts, O, L, E, F, |nverts|, 0)
    requires 0 <= g < |nverts| && !Quad(nverts, g) && 0 <= j < nverts[g]
    ensures var a, b := SubEdge(nverts, g, j, 1), SubEdge(nverts, g, Succ(nverts[g], j), 2);
      FvCount(nverts) <= a < |E| && FvCount(nverts) <= b < |E| && a != b &&
      0 <= EdgeId(nverts, g, j) < FvCount(nverts) &&
      PairAt(E, a) == (Mid(nverts, O, L, EdgeId(nverts, g, j)), Center(nverts, O, L, g)) &&
      PairAt(E, b) == Rev(PairAt(E, a))
  {
    var j1 := Succ(nverts[g], j);
    SuccPred(nverts[g], j);
    SubAdj(nverts, O, E, g, j);
    SubAdj(nverts, O, E, g, j1);
    CornerLinks(nverts, g, j);
    CornerLinks(nverts, g, j1);
    var x, x1 := EdgeId(nverts, g, j), EdgeId(nverts, g, j1);
    var a, a2 := SubEdge(nverts, g, j, 1), SubEdge(nverts, g, j, 2);
    var b, b3 := SubEdge(nverts, g, j1, 2), SubEdge(nverts, g, j1, 3);
    assert E[a] == SubRec(nverts, verts, O, L, g, j, 1, E[a].opposite);
    assert E[a2] == SubRec(nverts, verts, O, L, g, j, 2, E[a2].opposite);
    assert E[b] == SubRec(nverts, verts, O, L, g, j1, 2, E[b].opposite);
    assert E[b3] == SubRec(nverts, verts, O, L, g, j1, 3, E[b3].opposite);
  }

  /** Neighbouring subfaces of one split face are opposite and adjacent both ways across
      their shared inner side, provided no directed vertex pair occurs twice in the split
      mesh (in a face such as [a, b, a, c, d] two corners share a midpoint, an inner pair
      repeats, and the edge map's first entry decides instead). */
  lemma SubfaceSidesMutual(nverts: seq<int>, verts: seq<int>, E0: seq<Edge>, E: seq<Edge>, F: seq<Face>, g: int, j: int)
    requires Built(nverts, verts, E0, E, F) && Injective(Pairs(E0, |E0|))
    requires 0 <= g < |nverts| && !Quad(nverts, g) && 0 <= j < nverts[g]
    ensures var a, b := SubEdge(nverts, g, j, 1), SubEdge(nverts, g, Succ(nverts[g], j), 2);
      0 <= a < |E0| && 0 <= b < |E0| && |E| == |E0| &&
      E0[a].opposite == b && E0[b].opposite == a && E[a].adjacent == b && E[b].adjacent == a
  {
    var O, L := InOpps(nverts, verts), MaxVertex(verts, FvCount(nverts));
    var a, b := SubEdge(nverts, g, j, 1), SubEdge(nverts, g, Succ(nverts[g], j), 2);
    SubSidePairs(nverts, verts, O, L, E0, F, g, j);
    var P := Pairs(E0, |E0|);
    LocalPartner(P, a, b);
    assert E0[a].opposite == Opps(E0, |E0|)[a] && E0[b].opposite == Opps(E0, |E0|)[b];
    SuccPred(nverts[g], j);
    SubAdj(nverts, O, E0, g, j);
    SubAdj(nverts, O, E0, g, Succ(nverts[g], j));
  }
}
