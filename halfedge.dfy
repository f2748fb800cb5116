/** The half-edge records of the subdivided mesh and their accessors.

    Edges and faces live in two arenas allocated once; a link between records is the index
    of the target in its arena, and -1 stands for a null link. */
module HalfEdge {

  /** A half-edge: its face, its start vertex v, its position fv in the face's ring, and
      its links (opposite, next and prev in the face, the subface created for its corner,
      and the edge it is adjacent to in the ptex sense). */
  datatype Edge = Edge(face: int, v: int, fv: int, opposite: int, next: int, prev: int,
                       subFace: int, adjacent: int)

  /** A face: its own index, its ptex index (-1 when it is not a ptex face), whether it is a
      subface of a split face, and its first edge. */
  datatype Face = Face(faceIndex: int, ptexIndex: int, isSubface: bool, first: int)

  /** An arena edge before it is used: value-initialised, so vertex and corner number are 0
      and every link is null. */
  const FreshEdge := Edge(-1, 0, 0, -1, -1, -1, -1, -1)

  /** A face record before it is used. */
  const DefaultFace := Face(-1, -1, false, -1)

  /** Position after corner j in a ring of k corners. */
  function Succ(k: int, j: int): int { if j + 1 == k then 0 else j + 1 }

  /** Position before corner j in a ring of k corners. */
  function Pred(k: int, j: int): int { if j == 0 then k - 1 else j - 1 }

  lemma SuccPred(k: int, j: int)
    requires 0 <= j < k
    ensures 0 <= Succ(k, j) < k && 0 <= Pred(k, j) < k
    ensures Pred(k, Succ(k, j)) == j && Succ(k, Pred(k, j)) == j
  {
  }

  /** The two arenas of a mesh. */
  class HalfMesh {
    const edges: array<Edge>
    const faces: array<Face>

    /** half_mesh(nfaces, nedges): exactly nfaces face and nedges edge records, all unused. */
    constructor (nfaces: int, nedges: int)
      requires nfaces >= 0 && nedges >= 0
      ensures fresh(edges) && fresh(faces)
      ensures faces.Length == nfaces && edges.Length == nedges
      ensures forall x | 0 <= x < nedges :: edges[x] == FreshEdge
      ensures forall f | 0 <= f < nfaces :: faces[f] == DefaultFace
    {
      edges := new Edge[nedges](_ => FreshEdge);
      faces := new Face[nfaces](_ => DefaultFace);
    }
  }

  /** Every link of every edge is null or an index into the arenas. */
  predicate Links(E: seq<Edge>, F: seq<Face>)
  {
    forall x | 0 <= x < |E| ::
      -1 <= E[x].face < |F| && -1 <= E[x].opposite < |E| && -1 <= E[x].next < |E| &&
      -1 <= E[x].prev < |E| && -1 <= E[x].subFace < |F| && -1 <= E[x].adjacent < |E|
  }

  function NextFace(E: seq<Edge>, e: int): int requires 0 <= e < |E| { E[e].next }
  function PrevFace(E: seq<Edge>, e: int): int requires 0 <= e < |E| { E[e].prev }
  function Opposite(E: seq<Edge>, e: int): int requires 0 <= e < |E| { E[e].opposite }

  /** next_vert: the edge after e's opposite, or null when e has no opposite. */
  function NextVert(E: seq<Edge>, e: int): (r: int)
    requires 0 <= e < |E| && -1 <= E[e].opposite < |E|
    ensures Opposite(E, e) == -1 ==> r == -1
  {
    var op := Opposite(E, e);
    if op == -1 then -1 else NextFace(E, op)
  }

  /** prev_vert: the opposite of the edge before e. */
  function PrevVert(E: seq<Edge>, e: int): (r: int)
    requires 0 <= e < |E| && 0 <= E[e].prev < |E|
    ensures r == -1 <==> E[E[e].prev].opposite == -1
  {
    Opposite(E, PrevFace(E, e))
  }

  /** adjacent_face: the ptex index of the face owning e's adjacent edge, -1 when null. */
  function AdjacentFace(E: seq<Edge>, F: seq<Face>, e: int): (r: int)
    requires 0 <= e < |E| && Links(E, F)
    requires E[e].adjacent != -1 ==> E[E[e].adjacent].face != -1
    ensures E[e].adjacent == -1 ==> r == -1
  {
    var a := E[e].adjacent;
    if a == -1 then -1 else F[E[a].face].ptexIndex
  }

  /** adjacent_edge: the corner number of e's adjacent edge within its face, 0 when null. */
  function AdjacentEdge(E: seq<Edge>, e: int): (r: int)
    requires 0 <= e < |E| && -1 <= E[e].adjacent < |E|
    ensures E[e].adjacent == -1 ==> r == 0
  {
    var a := E[e].adjacent;
    if a == -1 then 0 else E[a].fv
  }

  /** next_vert is null exactly when e has no opposite, as long as every edge has a next. */
  lemma NextVertNull(E: seq<Edge>, e: int)
    requires 0 <= e < |E| && -1 <= E[e].opposite < |E|
    requires forall x | 0 <= x < |E| :: 0 <= E[x].next < |E|
    ensures NextVert(E, e) == -1 <==> Opposite(E, e) == -1
    ensures Opposite(E, e) != -1 ==> NextVert(E, e) == NextFace(E, Opposite(E, e))
  {
  }

  /** adjacent_face is -1 exactly when the adjacent link is null, as long as every adjacent
      edge belongs to a ptex face. */
  lemma AdjacentFaceNull(E: seq<Edge>, F: seq<Face>, e: int)
    requires 0 <= e < |E| && Links(E, F)
    requires E[e].adjacent != -1 ==> 0 <= E[E[e].adjacent].face && F[E[E[e].adjacent].face].ptexIndex >= 0
    ensures AdjacentFace(E, F, e) == -1 <==> E[e].adjacent == -1
  {
  }

  /** Rotating about a vertex: when opposite is an involution and next undoes prev, stepping
      to the previous edge around the vertex and then to the next one returns to e. */
  lemma NextVertOfPrevVert(E: seq<Edge>, e: int)
    requires 0 <= e < |E| && 0 <= E[e].prev < |E|
    requires forall x | 0 <= x < |E| :: -1 <= E[x].opposite < |E|
    requires forall x | 0 <= x < |E| && E[x].opposite != -1 :: E[E[x].opposite].opposite == x
    requires E[E[e].prev].next == e
    requires PrevVert(E, e) != -1
    ensures NextVert(E, PrevVert(E, e)) == e
  {
  }
}
