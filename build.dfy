/** The first half of build_mesh: every input face is added as a ring of half-edges, and
    the edge map pairs each corner with the corner that runs the other way along the same
    edge. */
module Build {
  import opened Counts
  import opened HalfEdge
  import opened Pairing
  import opened Builder
  import opened Layout

  /** The half-edge of corner j of input face f once linked: its vertex, corner number,
      ring links within the face, and the given opposite and subface links. */
  function InputEdge(nverts: seq<int>, verts: seq<int>, f: int, j: int, opp: int, sub: int): Edge
    requires 0 <= f < |nverts| && 0 <= EdgeId(nverts, f, j) < |verts|
  {
    Edge(f, verts[EdgeId(nverts, f, j)], j, opp, EdgeId(nverts, f, Succ(nverts[f], j)),
         EdgeId(nverts, f, Pred(nverts[f], j)), sub, -1)
  }

  /** The face record of input face f before the subdivision. */
  function InputFace(nverts: seq<int>, f: int): Face
    requires 0 <= f < |nverts|
  {
    Face(f, -1, false, Offset(nverts, f))
  }

  /** The input faces before face i have been added. */
  predicate InputAdded(nverts: seq<int>, verts: seq<int>, E: seq<Edge>, F: seq<Face>, i: int)
  {
    InputOk(nverts, verts) && 0 <= i <= |nverts| && FvCount(nverts) <= |E| && i <= |F| &&
    (forall f, j {:trigger E[EdgeId(nverts, f, j)]} | 0 <= f < i && 0 <= j < nverts[f] ::
      0 <= EdgeId(nverts, f, j) < FvCount(nverts) &&
      E[EdgeId(nverts, f, j)] == InputEdge(nverts, verts, f, j, E[EdgeId(nverts, f, j)].opposite, -1)) &&
    (forall f | 0 <= f < i :: F[f] == InputFace(nverts, f))
  }

  /** Adding input face i keeps the faces before it, apart from opposite links. */
  lemma InputStep(nverts: seq<int>, verts: seq<int>, E0: seq<Edge>, F0: seq<Face>,
                  E: seq<Edge>, F: seq<Face>, i: int, base: int, top: int, vs: seq<int>)
    requires InputAdded(nverts, verts, E0, F0, i) && i < |nverts| && i < |F0|
    requires base == Offset(nverts, i) && top == base + nverts[i] <= FvCount(nverts)
    requires vs == verts[base..top]
    requires RingAdded(E, base, vs, i)
    requires OldEdgesKept(E0, E, base, vs)
    requires F == F0[i := InputFace(nverts, i)]
    ensures InputAdded(nverts, verts, E, F, i + 1)
  {
    forall f, j | 0 <= f < i + 1 && 0 <= j < nverts[f]
      ensures 0 <= EdgeId(nverts, f, j) < FvCount(nverts)
      ensures E[EdgeId(nverts, f, j)] == InputEdge(nverts, verts, f, j, E[EdgeId(nverts, f, j)].opposite, -1)
    {
      InputStepAt(nverts, verts, E0, F0, E, i, base, top, vs, f, j);
    }
    assert forall f | 0 <= f < i + 1 :: F[f] == InputFace(nverts, f);
  }

  /** InputStep for corner j of face f, one of the faces up to i. */
  lemma InputStepAt(nverts: seq<int>, verts: seq<int>, E0: seq<Edge>, F0: seq<Face>,
                    E: seq<Edge>, i: int, base: int, top: int, vs: seq<int>, f: int, j: int)
    requires InputAdded(nverts, verts, E0, F0, i) && i < |nverts|
    requires base == Offset(nverts, i) && top == base + nverts[i] <= FvCount(nverts)
    requires vs == verts[base..top]
    requires RingAdded(E, base, vs, i)
    requires OldEdgesKept(E0, E, base, vs)
    requires 0 <= f <= i && 0 <= j < nverts[f]
    ensures 0 <= EdgeId(nverts, f, j) < FvCount(nverts)
    ensures E[EdgeId(nverts, f, j)] == InputEdge(nverts, verts, f, j, E[EdgeId(nverts, f, j)].opposite, -1)
  {
    EdgeIdFace(nverts, f, j);
    if f < i {
      EdgeIdBelow(nverts, f, j, i);
      InputStepOld(nverts, verts, E0, E, f, j, base, vs);
    } else {
      InputStepNew(nverts, verts, E, i, j, base, vs);
    }
  }

  lemma InputStepOld(nverts: seq<int>, verts: seq<int>, E0: seq<Edge>, E: seq<Edge>,
                     f: int, j: int, base: int, vs: seq<int>)
    requires 0 <= f < |nverts| && 0 <= EdgeId(nverts, f, j) < base <= |E0| && EdgeId(nverts, f, j) < |verts|
    requires E0[EdgeId(nverts, f, j)] == InputEdge(nverts, verts, f, j, E0[EdgeId(nverts, f, j)].opposite, -1)
    requires OldEdgesKept(E0, E, base, vs)
    ensures E[EdgeId(nverts, f, j)] == InputEdge(nverts, verts, f, j, E[EdgeId(nverts, f, j)].opposite, -1)
  {
    var x := EdgeId(nverts, f, j);
    assert E[x] == E0[x].(opposite := E[x].opposite);
  }

  lemma InputStepNew(nverts: seq<int>, verts: seq<int>, E: seq<Edge>, i: int, j: int, base: int, vs: seq<int>)
    requires 0 <= i < |nverts| && 0 <= j < nverts[i] && base == Offset(nverts, i) && 0 <= base
    requires base + nverts[i] <= |verts|
    requires vs == verts[base..base + nverts[i]]
    requires RingAdded(E, base, vs, i)
    ensures E[EdgeId(nverts, i, j)] == InputEdge(nverts, verts, i, j, E[EdgeId(nverts, i, j)].opposite, -1)
  {
    var x := EdgeId(nverts, i, j);
    assert vs[j] == verts[x];
    assert E[x] == Edge(i, vs[j], j, E[x].opposite, base + Succ(|vs|, j), base + Pred(|vs|, j), -1, -1);
  }

  /** The pairs of the added corners are the input pairs. */
  lemma InputPairsMatch(nverts: seq<int>, verts: seq<int>, E: seq<Edge>, F: seq<Face>)
    requires InputAdded(nverts, verts, E, F, |nverts|)
    ensures Pairs(E, FvCount(nverts)) == InPairs(nverts, verts)
  {
    var n := FvCount(nverts);
    forall x | 0 <= x < n
      ensures PairAt(E, x) == InPairs(nverts, verts)[x]
    {
      var f := FaceOf(nverts, x);
      var j := CornerOf(nverts, x);
      EdgeIdFace(nverts, f, Succ(nverts[f], j));
      assert E[x] == InputEdge(nverts, verts, f, j, E[x].opposite, -1);
    }
  }

  /** One round of build_mesh's face loop: input face i is added with its slice of the
      vertex list. */
  method AddInputFace(b: MeshBuilder, nverts: seq<int>, verts: seq<int>, i: int)
    requires InputAdded(nverts, verts, b.mesh.edges[..], b.mesh.faces[..], i) && i < |nverts|
    requires b.Valid() && b.nextEdge == Offset(nverts, i) && b.nextFace == i
    requires b.mesh.edges.Length == TotalEdges(nverts) && b.mesh.faces.Length == TotalFaces(nverts)
    modifies b.mesh.edges, b.mesh.faces, b`edgeMap, b`nextEdge, b`nextFace
    ensures b.Valid() && b.nextEdge == Offset(nverts, i + 1) && b.nextFace == i + 1
    ensures InputAdded(nverts, verts, b.mesh.edges[..], b.mesh.faces[..], i + 1)
  {
    OffsetMono(nverts, i + 1, |nverts|);
    EdgesSplit(nverts, |nverts|);
    FacesSplit(nverts, |nverts|);
    SubBeforeMono(nverts, 0, |nverts|);
    var first := Offset(nverts, i);
    ghost var E0, F0 := b.mesh.edges[..], b.mesh.faces[..];
    var last := first + nverts[i];
    var vs := verts[first..last];
    var f := b.AddFace(vs);
    InputStep(nverts, verts, E0, F0, b.mesh.edges[..], b.mesh.faces[..], i, first, last, vs);
  }

  /** The loop of build_mesh over the input faces: every input ring is in place. */
  method AddInputLoop(b: MeshBuilder, nverts: seq<int>, verts: seq<int>)
    requires InputOk(nverts, verts)
    requires b.Valid() && b.nextEdge == 0 && b.nextFace == 0
    requires b.mesh.edges.Length == TotalEdges(nverts) && b.mesh.faces.Length == TotalFaces(nverts)
    modifies b.mesh.edges, b.mesh.faces, b`edgeMap, b`nextEdge, b`nextFace
    ensures b.Valid() && b.nextEdge == Offset(nverts, |nverts|) && b.nextFace == |nverts|
    ensures InputAdded(nverts, verts, b.mesh.edges[..], b.mesh.faces[..], |nverts|)
  {
    var i := 0;
    EdgesSplit(nverts, |nverts|);
    SubBeforeMono(nverts, 0, |nverts|);
    while i < |nverts|
      invariant 0 <= i <= |nverts|
      invariant b.Valid() && b.nextEdge == Offset(nverts, i) && b.nextFace == i
      invariant InputAdded(nverts, verts, b.mesh.edges[..], b.mesh.faces[..], i)
    {
      AddInputFace(b, nverts, verts, i);
      i := i + 1;
    }
  }

  /** The input loop of build_mesh.  Afterwards the input rings are in place and every
      opposite link of an input corner is the one the edge map gives for the input pairs. */
  method AddInputFaces(b: MeshBuilder, nverts: seq<int>, verts: seq<int>)
    requires InputOk(nverts, verts)
    requires b.Valid() && b.nextEdge == 0 && b.nextFace == 0
    requires b.mesh.edges.Length == TotalEdges(nverts) && b.mesh.faces.Length == TotalFaces(nverts)
    modifies b.mesh.edges, b.mesh.faces, b`edgeMap, b`nextEdge, b`nextFace
    ensures b.Valid() && b.nextEdge == FvCount(nverts) && b.nextFace == |nverts|
    ensures InputAdded(nverts, verts, b.mesh.edges[..], b.mesh.faces[..], |nverts|)
    ensures forall x | 0 <= x < FvCount(nverts) :: b.mesh.edges[x].opposite == InOpps(nverts, verts)[x]
  {
    AddInputLoop(b, nverts, verts);
    InputOpposites(nverts, verts, b.mesh.edges[..], b.mesh.faces[..], b.edgeMap);
  }

  lemma InputOpposites(nverts: seq<int>, verts: seq<int>, E: seq<Edge>, F: seq<Face>, M: map<Pair, int>)
    requires InputAdded(nverts, verts, E, F, |nverts|) && Marked(E, M, FvCount(nverts))
    ensures forall x | 0 <= x < FvCount(nverts) :: E[x].opposite == InOpps(nverts, verts)[x]
  {
    InputPairsMatch(nverts, verts, E, F);
    forall x | 0 <= x < FvCount(nverts)
      ensures E[x].opposite == InOpps(nverts, verts)[x]
    {
      assert Opps(E, FvCount(nverts))[x] == E[x].opposite;
    }
  }
}
