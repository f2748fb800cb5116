/** The second half of build_mesh (subdiv_mesh, first loop): every input face that is not
    a quad gets one quad subface per corner, made of the corner's vertex, the midpoint of
    its edge, the face centre and the midpoint of the previous edge.  A midpoint shared
    with an already split neighbour is reused. */
module Subdiv {
  import opened Counts
  import opened HalfEdge
  import opened Pairing
  import opened Builder
  import opened Layout
  import opened Build

  /** Corner j of face g has its subface once the walk has reached face f and made s of
      f's subfaces; a face's subfaces are made from corner 1 round to corner 0. */
  predicate Done(nverts: seq<int>, g: int, j: int, f: int, s: int)
    requires 0 <= g < |nverts|
  {
    g < f || (g == f && Pred(nverts[g], j) < s)
  }

  /** The sub_face link of corner j of face g at that point. */
  function SubOf(nverts: seq<int>, g: int, j: int, f: int, s: int): int
    requires 0 <= g < |nverts|
  {
    if !Quad(nverts, g) && Done(nverts, g, j, f, s) then SubfaceId(nverts, g, j) else -1
  }

  /** Edge k of the subface of corner j of face g, with opposite link opp. */
  function SubRec(nverts: seq<int>, verts: seq<int>, O: seq<int>, L: int, g: int, j: int, k: int, opp: int): Edge
    requires InputOk(nverts, verts) && Opposites(nverts, O) && 0 <= g < |nverts|
    requires 0 <= EdgeId(nverts, g, j) < FvCount(nverts)
  {
    Edge(SubfaceId(nverts, g, j), SubVert(nverts, verts, O, L, EdgeId(nverts, g, j), k), k, opp,
         SubEdge(nverts, g, j, Succ(4, k)), SubEdge(nverts, g, j, Pred(4, k)), -1, -1)
  }

  /** The face record of the subface of corner j of face g. */
  function SubFaceRec(nverts: seq<int>, g: int, j: int): Face
    requires 0 <= g < |nverts|
  {
    Face(SubfaceId(nverts, g, j), SubPtex(nverts, g, j), true, SubEdge(nverts, g, j, 0))
  }

  /** The input corners keep their ring, and their opposite links O; only the subfaces made
      so far are linked. */
  predicate OrigKept(nverts: seq<int>, verts: seq<int>, O: seq<int>, E: seq<Edge>, f: int, s: int)
    requires InputOk(nverts, verts) && |O| == |verts|
  {
    FvCount(nverts) <= |E| &&
    forall g, j {:trigger E[EdgeId(nverts, g, j)]}
      | 0 <= g < |nverts| && 0 <= j < nverts[g] && 0 <= EdgeId(nverts, g, j) < FvCount(nverts) ::
      E[EdgeId(nverts, g, j)] == InputEdge(nverts, verts, g, j, O[EdgeId(nverts, g, j)], SubOf(nverts, g, j, f, s))
  }

  /** The input face records; the quads before face f have their ptex index. */
  predicate FacesKept(nverts: seq<int>, F: seq<Face>, f: int)
  {
    |nverts| <= |F| &&
    forall g | 0 <= g < |nverts| ::
      F[g] == Face(g, if Quad(nverts, g) && g < f then PtexBefore(nverts, g) else -1, false, Offset(nverts, g))
  }

  /** The edges of the subfaces made so far. */
  predicate SubEdgesMade(nverts: seq<int>, verts: seq<int>, O: seq<int>, L: int, E: seq<Edge>, f: int, s: int)
    requires InputOk(nverts, verts) && Opposites(nverts, O)
  {
    forall g, j, k {:trigger E[SubEdge(nverts, g, j, k)]}
      | 0 <= g < |nverts| && !Quad(nverts, g) && 0 <= j < nverts[g] && Done(nverts, g, j, f, s) && 0 <= k < 4 &&
        0 <= EdgeId(nverts, g, j) < FvCount(nverts) && 0 <= SubEdge(nverts, g, j, k) < |E| ::
      E[SubEdge(nverts, g, j, k)] == SubRec(nverts, verts, O, L, g, j, k, E[SubEdge(nverts, g, j, k)].opposite)
  }

  /** The face records of the subfaces made so far. */
  predicate SubFacesMade(nverts: seq<int>, F: seq<Face>, f: int, s: int)
  {
    forall g, j {:trigger F[SubfaceId(nverts, g, j)]}
      | 0 <= g < |nverts| && !Quad(nverts, g) && 0 <= j < nverts[g] && Done(nverts, g, j, f, s) &&
        0 <= SubfaceId(nverts, g, j) < |F| ::
      F[SubfaceId(nverts, g, j)] == SubFaceRec(nverts, g, j)
  }

  /** The mesh when the face loop of subdiv_mesh is at face f with s of its subfaces made.
      L bounds the input vertices, and O is the opposite links the input faces got. */
  predicate Stage(nverts: seq<int>, verts: seq<int>, O: seq<int>, L: int, E: seq<Edge>, F: seq<Face>, f: int, s: int)
  {
    InputOk(nverts, verts) && Opposites(nverts, O) &&
    |E| == TotalEdges(nverts) && |F| == TotalFaces(nverts) &&
    0 <= f <= |nverts| && 0 <= s &&
    (f < |nverts| ==> s <= nverts[f] && (Quad(nverts, f) ==> s == 0)) && (f == |nverts| ==> s == 0) &&
    (forall y | 0 <= y < |verts| :: verts[y] <= L) &&
    OrigKept(nverts, verts, O, E, f, s) && FacesKept(nverts, F, f) &&
    SubEdgesMade(nverts, verts, O, L, E, f, s) && SubFacesMade(nverts, F, f, s)
  }

  /** The edges kept when a subface is added for corner parent: all but their opposite link
      and the parent's sub_face link are unchanged, and an opposite link changes only to an
      edge of the new ring that runs the other way. */
  predicate SubKept(E0: seq<Edge>, E: seq<Edge>, base: int, vs: seq<int>, parent: int, f: int)
  {
    |E| == |E0| && 0 <= base <= |E| &&
    forall x {:trigger E[x]} | 0 <= x < base ::
      E[x] == E0[x].(opposite := E[x].opposite, subFace := if x == parent then f else E0[x].subFace) &&
      (E[x].opposite == E0[x].opposite ||
       (base <= E[x].opposite < base + |vs| &&
        PairAt(E0, x) == (vs[Succ(|vs|, E[x].opposite - base)], vs[E[x].opposite - base])))
  }

  /** Subfaces made at (f, s) come before the next subface slot. */
  lemma SubBelow(nverts: seq<int>, g: int, j: int, f: int, s: int)
    requires NonNegative(nverts) && 0 <= g < |nverts| && !Quad(nverts, g) && 0 <= j < nverts[g]
    requires 0 <= f <= |nverts| && 0 <= s && Done(nverts, g, j, f, s)
    ensures SubBefore(nverts, g) + Pred(nverts[g], j) < SubBefore(nverts, f) + s
  {
    SuccPred(nverts[g], j);
    if g < f {
      assert SubBefore(nverts, g + 1) == SubBefore(nverts, g) + nverts[g];
      SubBeforeMono(nverts, g + 1, f);
    }
  }

  /** The input faces as build_mesh's first loop leaves them are stage (0, 0). */
  lemma StageStart(nverts: seq<int>, verts: seq<int>, L: int, E: seq<Edge>, F: seq<Face>)
    requires InputAdded(nverts, verts, E, F, |nverts|)
    requires |E| == TotalEdges(nverts) && |F| == TotalFaces(nverts)
    requires forall x | 0 <= x < FvCount(nverts) :: E[x].opposite == InOpps(nverts, verts)[x]
    requires forall y | 0 <= y < |verts| :: verts[y] <= L
    ensures Stage(nverts, verts, InOpps(nverts, verts), L, E, F, 0, 0)
  {
    var O := InOpps(nverts, verts);
    InputOkNonNegative(nverts, verts);
    OrigStart(nverts, verts, O, E, F);
    forall g | 0 <= g < |nverts|
      ensures F[g] == Face(g, -1, false, Offset(nverts, g))
    {
      assert F[g] == InputFace(nverts, g);
    }
    assert FacesKept(nverts, F, 0);
    NothingDone(nverts, verts, O, L, E, F);
  }

  lemma OrigStart(nverts: seq<int>, verts: seq<int>, O: seq<int>, E: seq<Edge>, F: seq<Face>)
    requires InputAdded(nverts, verts, E, F, |nverts|) && O == InOpps(nverts, verts)
    requires forall x | 0 <= x < FvCount(nverts) :: E[x].opposite == O[x]
    ensures OrigKept(nverts, verts, O, E, 0, 0)
  {
    forall g, j | 0 <= g < |nverts| && 0 <= j < nverts[g] && 0 <= EdgeId(nverts, g, j) < FvCount(nverts)
      ensures E[EdgeId(nverts, g, j)] == InputEdge(nverts, verts, g, j, O[EdgeId(nverts, g, j)], SubOf(nverts, g, j, 0, 0))
    {
      SuccPred(nverts[g], j);
      var x := EdgeId(nverts, g, j);
      assert E[x] == InputEdge(nverts, verts, g, j, E[x].opposite, -1);
    }
  }

  lemma NothingDone(nverts: seq<int>, verts: seq<int>, O: seq<int>, L: int, E: seq<Edge>, F: seq<Face>)
    requires InputOk(nverts, verts) && Opposites(nverts, O)
    ensures SubEdgesMade(nverts, verts, O, L, E, 0, 0) && SubFacesMade(nverts, F, 0, 0)
  {
    forall g, j | 0 <= g < |nverts| && 0 <= j < nverts[g]
      ensures !Done(nverts, g, j, 0, 0)
    {
      SuccPred(nverts[g], j);
    }
  }

  /** Keeping the subfaces made so far, or fewer of them, keeps the facts about them. */
  lemma OrigWeaken(nverts: seq<int>, verts: seq<int>, O: seq<int>, E: seq<Edge>, f: int, s: int, f2: int, s2: int)
    requires InputOk(nverts, verts) && |O| == |verts| && OrigKept(nverts, verts, O, E, f, s)
    requires forall g, j | 0 <= g < |nverts| && 0 <= j < nverts[g] ::
      Done(nverts, g, j, f2, s2) == Done(nverts, g, j, f, s)
    ensures OrigKept(nverts, verts, O, E, f2, s2)
  {
    forall g, j | 0 <= g < |nverts| && 0 <= j < nverts[g] && 0 <= EdgeId(nverts, g, j) < FvCount(nverts)
      ensures E[EdgeId(nverts, g, j)] == InputEdge(nverts, verts, g, j, O[EdgeId(nverts, g, j)], SubOf(nverts, g, j, f2, s2))
    {
      assert SubOf(nverts, g, j, f2, s2) == SubOf(nverts, g, j, f, s);
    }
  }

  lemma EdgesWeaken(nverts: seq<int>, verts: seq<int>, O: seq<int>, L: int, E: seq<Edge>, f: int, s: int, f2: int, s2: int)
    requires InputOk(nverts, verts) && Opposites(nverts, O)
    requires SubEdgesMade(nverts, verts, O, L, E, f, s)
    requires forall g, j | 0 <= g < |nverts| && 0 <= j < nverts[g] && !Quad(nverts, g) && Done(nverts, g, j, f2, s2) ::
      Done(nverts, g, j, f, s)
    ensures SubEdgesMade(nverts, verts, O, L, E, f2, s2)
  {
  }

  lemma FacesWeaken(nverts: seq<int>, F: seq<Face>, f: int, s: int, f2: int, s2: int)
    requires SubFacesMade(nverts, F, f, s)
    requires forall g, j | 0 <= g < |nverts| && 0 <= j < nverts[g] && !Quad(nverts, g) && Done(nverts, g, j, f2, s2) ::
      Done(nverts, g, j, f, s)
    ensures SubFacesMade(nverts, F, f2, s2)
  {
  }

  /** A quad face only gets its ptex index. */
  lemma StageQuad(nverts: seq<int>, verts: seq<int>, O: seq<int>, L: int, E: seq<Edge>, F: seq<Face>, F': seq<Face>, f: int)
    requires Stage(nverts, verts, O, L, E, F, f, 0) && f < |nverts| && Quad(nverts, f)
    requires F' == F[f := F[f].(ptexIndex := PtexBefore(nverts, f))]
    ensures Stage(nverts, verts, O, L, E, F', f + 1, 0)
  {
    forall g, j | 0 <= g < |nverts| && 0 <= j < nverts[g]
      ensures Done(nverts, g, j, f + 1, 0) == Done(nverts, g, j, f, 0) || (g == f && Quad(nverts, g))
    {
      SuccPred(nverts[g], j);
    }
    OrigQuad(nverts, verts, O, E, f);
    EdgesWeaken(nverts, verts, O, L, E, f, 0, f + 1, 0);
    FacesQuad(nverts, F, F', f);
  }

  lemma OrigQuad(nverts: seq<int>, verts: seq<int>, O: seq<int>, E: seq<Edge>, f: int)
    requires InputOk(nverts, verts) && |O| == |verts| && 0 <= f < |nverts| && Quad(nverts, f)
    requires OrigKept(nverts, verts, O, E, f, 0)
    ensures OrigKept(nverts, verts, O, E, f + 1, 0)
  {
    forall g, j | 0 <= g < |nverts| && 0 <= j < nverts[g] && 0 <= EdgeId(nverts, g, j) < FvCount(nverts)
      ensures E[EdgeId(nverts, g, j)] == InputEdge(nverts, verts, g, j, O[EdgeId(nverts, g, j)], SubOf(nverts, g, j, f + 1, 0))
    {
      SuccPred(nverts[g], j);
      assert SubOf(nverts, g, j, f + 1, 0) == SubOf(nverts, g, j, f, 0);
    }
  }

  lemma FacesQuad(nverts: seq<int>, F: seq<Face>, F': seq<Face>, f: int)
    requires NonNegative(nverts) && 0 <= f < |nverts| && Quad(nverts, f) && |F| == TotalFaces(nverts)
    requires FacesKept(nverts, F, f) && SubFacesMade(nverts, F, f, 0)
    requires F' == F[f := F[f].(ptexIndex := PtexBefore(nverts, f))]
    ensures FacesKept(nverts, F', f + 1) && SubFacesMade(nverts, F', f + 1, 0)
  {
    forall g, j | 0 <= g < |nverts| && !Quad(nverts, g) && 0 <= j < nverts[g] && Done(nverts, g, j, f + 1, 0) &&
                  0 <= SubfaceId(nverts, g, j) < |F'|
      ensures F'[SubfaceId(nverts, g, j)] == SubFaceRec(nverts, g, j)
    {
      SubLayoutFits(nverts, g, j);
      assert Done(nverts, g, j, f, 0);
    }
  }

  /** After the last subface of a split face the walk moves on to the next face. */
  lemma StageNext(nverts: seq<int>, verts: seq<int>, O: seq<int>, L: int, E: seq<Edge>, F: seq<Face>, f: int)
    requires 0 <= f < |nverts| && !Quad(nverts, f) && Stage(nverts, verts, O, L, E, F, f, nverts[f])
    ensures Stage(nverts, verts, O, L, E, F, f + 1, 0)
  {
    forall g, j | 0 <= g < |nverts| && 0 <= j < nverts[g]
      ensures Done(nverts, g, j, f + 1, 0) == Done(nverts, g, j, f, nverts[f])
    {
      SuccPred(nverts[g], j);
    }
    OrigWeaken(nverts, verts, O, E, f, nverts[f], f + 1, 0);
    EdgesWeaken(nverts, verts, O, L, E, f, nverts[f], f + 1, 0);
    FacesWeaken(nverts, F, f, nverts[f], f + 1, 0);
  }

  /** Linking a used edge to a used face, and marking that face as a ptex subface, keeps
      the builder state: no pair and no opposite link changes. */
  lemma SubLinkKeepsWf(E1: seq<Edge>, F1: seq<Face>, M: map<Pair, int>, ne: int, nf: int,
                       parent: int, sf: int, ptex: int, E: seq<Edge>, F: seq<Face>)
    requires Wf(E1, F1, M, ne, nf) && 0 <= parent < ne && 0 <= sf < nf
    requires E == E1[parent := E1[parent].(subFace := sf)]
    requires F == F1[sf := F1[sf].(isSubface := true, ptexIndex := ptex)]
    ensures Wf(E, F, M, ne, nf)
  {
    PairsFrame(E1, E, ne);
    assert Opps(E, ne) == Opps(E1, ne);
  }

  /** The subface part of the ring loop of subdiv_mesh: add_face with the four vertices,
      then the new face is flagged as a subface with its ptex index, and the parent corner
      gets its sub_face link. */
  method AddSubface(b: MeshBuilder, vs: seq<int>, ptex: int, parent: int) returns (sf: int)
    requires b.Valid() && |vs| == 4
    requires b.nextEdge + 4 <= b.mesh.edges.Length && b.nextFace < b.mesh.faces.Length
    requires 0 <= parent < b.nextEdge
    modifies b.mesh.edges, b.mesh.faces, b`edgeMap, b`nextEdge, b`nextFace
    ensures b.Valid()
    ensures sf == old(b.nextFace) && b.nextFace == sf + 1 && b.nextEdge == old(b.nextEdge) + 4
    ensures b.mesh.faces[..] == old(b.mesh.faces[..])[sf := Face(sf, ptex, true, old(b.nextEdge))]
    ensures RingAdded(b.mesh.edges[..], old(b.nextEdge), vs, sf)
    ensures SubKept(old(b.mesh.edges[..]), b.mesh.edges[..], old(b.nextEdge), vs, parent, sf)
  {
    ghost var E0 := b.mesh.edges[..];
    ghost var base := b.nextEdge;
    sf := b.AddFace(vs);
    ghost var E1 := b.mesh.edges[..];
    ghost var F1 := b.mesh.faces[..];
    b.mesh.faces[sf] := b.mesh.faces[sf].(isSubface := true, ptexIndex := ptex);
    b.mesh.edges[parent] := b.mesh.edges[parent].(subFace := sf);
    SubLinkKeepsWf(E1, F1, b.edgeMap, b.nextEdge, b.nextFace, parent, sf, ptex, b.mesh.edges[..], b.mesh.faces[..]);
    SubLinkKept(E0, E1, b.mesh.edges[..], base, vs, parent, sf);
  }

  lemma SubLinkKept(E0: seq<Edge>, E1: seq<Edge>, E: seq<Edge>, base: int, vs: seq<int>, parent: int, sf: int)
    requires OldEdgesKept(E0, E1, base, vs) && RingAdded(E1, base, vs, sf)
    requires 0 <= parent < base && E == E1[parent := E1[parent].(subFace := sf)]
    ensures RingAdded(E, base, vs, sf) && SubKept(E0, E, base, vs, parent, sf)
  {
    forall x | 0 <= x < base
      ensures E[x] == E0[x].(opposite := E[x].opposite, subFace := if x == parent then sf else E0[x].subFace)
    {
      assert E1[x] == E0[x].(opposite := E1[x].opposite);
    }
  }

  /** The vertices of the subface of corner x: the corner's vertex, the midpoint of its
      edge, the centre of its face and the midpoint of the edge before. */
  function SubVerts(nverts: seq<int>, verts: seq<int>, O: seq<int>, L: int, x: int): (vs: seq<int>)
    requires InputOk(nverts, verts) && Opposites(nverts, O) && 0 <= x < FvCount(nverts)
    ensures |vs| == 4 && forall k | 0 <= k < 4 :: vs[k] == SubVert(nverts, verts, O, L, x, k)
    ensures forall k | 1 <= k < 4 :: vs[k] > L
  {
    [SubVert(nverts, verts, O, L, x, 0), SubVert(nverts, verts, O, L, x, 1),
     SubVert(nverts, verts, O, L, x, 2), SubVert(nverts, verts, O, L, x, 3)]
  }

  /** Making the subface of the corner in slot s marks exactly that corner done. */
  lemma DoneAdd(nverts: seq<int>, g: int, i: int, f: int, s: int, j: int)
    requires 0 <= g < |nverts| && 0 <= i < nverts[g] && 0 <= f < |nverts| && 0 <= j < nverts[f]
    requires Pred(nverts[f], j) == s
    ensures Done(nverts, g, i, f, s + 1) == (Done(nverts, g, i, f, s) || (g == f && i == j))
  {
    SuccPred(nverts[g], i);
    SuccPred(nverts[f], j);
  }

  /** Corner (g, i) is corner x exactly when g is x's face and i its corner number. */
  lemma EdgeIdSame(nverts: seq<int>, g: int, i: int, f: int, j: int)
    requires NonNegative(nverts) && 0 <= g < |nverts| && 0 <= i < nverts[g] && 0 <= f < |nverts| && 0 <= j < nverts[f]
    ensures EdgeId(nverts, g, i) == EdgeId(nverts, f, j) <==> g == f && i == j
  {
    EdgeIdFace(nverts, g, i);
    EdgeIdFace(nverts, f, j);
  }

  /** No pair of a subface ring is the reverse of a pair of input vertices. */
  lemma RingPairsFresh(vs: seq<int>, L: int, p: Pair, i: int)
    requires |vs| == 4 && (forall k | 1 <= k < 4 :: vs[k] > L) && 0 <= i < 4
    requires p.0 <= L && p.1 <= L
    ensures p != (vs[Succ(4, i)], vs[i])
  {
  }

  /** Adding the subface of corner x keeps the input corners, and links x to it. */
  lemma OrigAdd(nverts: seq<int>, verts: seq<int>, O: seq<int>, L: int, E0: seq<Edge>, E: seq<Edge>,
                f: int, s: int, j: int, x: int, base: int, vs: seq<int>, sf: int, s1: int)
    requires InputOk(nverts, verts) && |O| == |verts| && OrigKept(nverts, verts, O, E0, f, s)
    requires forall y | 0 <= y < |verts| :: verts[y] <= L
    requires 0 <= f < |nverts| && !Quad(nverts, f) && 0 <= j < nverts[f] && Pred(nverts[f], j) == s
    requires x == EdgeId(nverts, f, j) && sf == SubfaceId(nverts, f, j) && s1 == s + 1
    requires FvCount(nverts) <= base && |vs| == 4 && forall k | 1 <= k < 4 :: vs[k] > L
    requires SubKept(E0, E, base, vs, x, sf)
    ensures OrigKept(nverts, verts, O, E, f, s1)
  {
    InputOkNonNegative(nverts, verts);
    forall g, i | 0 <= g < |nverts| && 0 <= i < nverts[g] && 0 <= EdgeId(nverts, g, i) < FvCount(nverts)
      ensures E[EdgeId(nverts, g, i)] == InputEdge(nverts, verts, g, i, O[EdgeId(nverts, g, i)], SubOf(nverts, g, i, f, s1))
    {
      var y := EdgeId(nverts, g, i);
      SuccPred(nverts[g], i);
      var n := EdgeId(nverts, g, Succ(nverts[g], i));
      EdgeIdFace(nverts, g, Succ(nverts[g], i));
      assert E0[n].v == verts[n];
      assert E0[y].next == n;
      if E[y].opposite != E0[y].opposite {
        RingPairsFresh(vs, L, PairAt(E0, y), E[y].opposite - base);
      }
      EdgeIdSame(nverts, g, i, f, j);
      DoneAdd(nverts, g, i, f, s, j);
    }
  }

  /** A subface made before the one in slot s of face f lies below it in both arenas. */
  lemma SubMadeBelow(nverts: seq<int>, g: int, i: int, k: int, f: int, j: int, s: int)
    requires NonNegative(nverts) && 0 <= g < |nverts| && !Quad(nverts, g) && 0 <= i < nverts[g] && 0 <= k < 4
    requires 0 <= f < |nverts| && 0 <= j < nverts[f] && Pred(nverts[f], j) == s && Done(nverts, g, i, f, s)
    ensures FvCount(nverts) <= SubEdge(nverts, g, i, k) < SubEdge(nverts, f, j, 0)
    ensures |nverts| <= SubfaceId(nverts, g, i) < SubfaceId(nverts, f, j)
  {
    SubBelow(nverts, g, i, f, s);
    SubBeforeMono(nverts, 0, g);
    SuccPred(nverts[g], i);
  }

  /** Adding the subface of corner x gives it its four edges and keeps the earlier ones. */
  lemma EdgesAdd(nverts: seq<int>, verts: seq<int>, O: seq<int>, L: int, E0: seq<Edge>, E: seq<Edge>,
                 f: int, s: int, j: int, x: int, base: int, vs: seq<int>, sf: int, s1: int)
    requires InputOk(nverts, verts) && Opposites(nverts, O) && SubEdgesMade(nverts, verts, O, L, E0, f, s)
    requires 0 <= f < |nverts| && !Quad(nverts, f) && 0 <= j < nverts[f] && Pred(nverts[f], j) == s
    requires x == EdgeId(nverts, f, j) && 0 <= x < FvCount(nverts) && sf == SubfaceId(nverts, f, j) && s1 == s + 1
    requires base == SubEdge(nverts, f, j, 0) && vs == SubVerts(nverts, verts, O, L, x)
    requires RingAdded(E, base, vs, sf) && SubKept(E0, E, base, vs, x, sf)
    ensures SubEdgesMade(nverts, verts, O, L, E, f, s1)
  {
    InputOkNonNegative(nverts, verts);
    EdgeIdFace(nverts, f, j);
    forall g, i, k | 0 <= g < |nverts| && !Quad(nverts, g) && 0 <= i < nverts[g] && Done(nverts, g, i, f, s1) &&
                     0 <= k < 4 && 0 <= EdgeId(nverts, g, i) < FvCount(nverts) && 0 <= SubEdge(nverts, g, i, k) < |E|
      ensures E[SubEdge(nverts, g, i, k)] == SubRec(nverts, verts, O, L, g, i, k, E[SubEdge(nverts, g, i, k)].opposite)
    {
      DoneAdd(nverts, g, i, f, s, j);
      var y := SubEdge(nverts, g, i, k);
      if g == f && i == j {
        assert y == base + k;
      } else {
        SubMadeBelow(nverts, g, i, k, f, j, s);
        assert E[y] == E0[y].(opposite := E[y].opposite);
      }
    }
  }

  /** Adding the subface of corner x gives it its face record and keeps the others. */
  lemma FacesAdd(nverts: seq<int>, F0: seq<Face>, F: seq<Face>, f: int, s: int, j: int, sf: int, s1: int)
    requires NonNegative(nverts) && SubFacesMade(nverts, F0, f, s) && FacesKept(nverts, F0, f)
    requires 0 <= f < |nverts| && !Quad(nverts, f) && 0 <= j < nverts[f] && Pred(nverts[f], j) == s
    requires sf == SubfaceId(nverts, f, j) && s1 == s + 1 && 0 <= sf < |F0|
    requires F == F0[sf := SubFaceRec(nverts, f, j)]
    ensures SubFacesMade(nverts, F, f, s1) && FacesKept(nverts, F, f)
  {
    SubLayoutFits(nverts, f, j);
    forall g, i | 0 <= g < |nverts| && !Quad(nverts, g) && 0 <= i < nverts[g] && Done(nverts, g, i, f, s1) &&
                  0 <= SubfaceId(nverts, g, i) < |F|
      ensures F[SubfaceId(nverts, g, i)] == SubFaceRec(nverts, g, i)
    {
      DoneAdd(nverts, g, i, f, s, j);
      if !(g == f && i == j) {
        SubMadeBelow(nverts, g, i, 0, f, j, s);
      }
    }
  }

  /** Adding the subface of the corner in slot s of face f moves the walk to slot s + 1. */
  lemma StageAdd(nverts: seq<int>, verts: seq<int>, O: seq<int>, L: int, E0: seq<Edge>, F0: seq<Face>,
                 E: seq<Edge>, F: seq<Face>, f: int, s: int, j: int, x: int, base: int, vs: seq<int>,
                 sf: int, s1: int)
    requires Stage(nverts, verts, O, L, E0, F0, f, s)
    requires 0 <= f < |nverts| && !Quad(nverts, f) && 0 <= j < nverts[f] && Pred(nverts[f], j) == s
    requires x == EdgeId(nverts, f, j) && 0 <= x < FvCount(nverts) && sf == SubfaceId(nverts, f, j) && s1 == s + 1
    requires base == SubEdge(nverts, f, j, 0) && vs == SubVerts(nverts, verts, O, L, x)
    requires RingAdded(E, base, vs, sf) && SubKept(E0, E, base, vs, x, sf)
    requires 0 <= sf < |F0| && F == F0[sf := SubFaceRec(nverts, f, j)]
    ensures Stage(nverts, verts, O, L, E, F, f, s1)
  {
    InputOkNonNegative(nverts, verts);
    SuccPred(nverts[f], j);
    SubLayoutFits(nverts, f, j);
    EdgeIdFace(nverts, f, j);
    OrigAdd(nverts, verts, O, L, E0, E, f, s, j, x, base, vs, sf, s1);
    EdgesAdd(nverts, verts, O, L, E0, E, f, s, j, x, base, vs, sf, s1);
    FacesAdd(nverts, F0, F, f, s, j, sf, s1);
  }

  /** Where the walk stands when the midpoint of corner c of face f is chosen: corner 0 is
      split before any subface of f is made, corner c >= 1 after those of corners 1..c-1. */
  function SplitSlot(c: int): int
  {
    if c == 0 then 0 else c - 1
  }

  /** At that moment corner (g, i) has its subface exactly when SubDone says so. */
  lemma DoneAtSplit(nverts: seq<int>, g: int, i: int, f: int, c: int)
    requires NonNegative(nverts) && 0 <= g < |nverts| && 0 <= i < nverts[g]
    requires 0 <= f < |nverts| && 0 <= c < nverts[f]
    ensures 0 <= EdgeId(nverts, g, i) < FvCount(nverts) && 0 <= EdgeId(nverts, f, c) < FvCount(nverts)
    ensures (!Quad(nverts, g) && Done(nverts, g, i, f, SplitSlot(c))) ==
            SubDone(nverts, EdgeId(nverts, g, i), EdgeId(nverts, f, c))
  {
    EdgeIdFace(nverts, g, i);
    EdgeIdFace(nverts, f, c);
    SuccPred(nverts[g], i);
  }

  /** The midpoint vertex stored in the subface made for corner (g, i). */
  lemma SubMid(nverts: seq<int>, verts: seq<int>, O: seq<int>, L: int, E: seq<Edge>, F: seq<Face>,
               f: int, s: int, g: int, i: int)
    requires Stage(nverts, verts, O, L, E, F, f, s)
    requires 0 <= g < |nverts| && !Quad(nverts, g) && 0 <= i < nverts[g] && Done(nverts, g, i, f, s)
    ensures 0 <= EdgeId(nverts, g, i) < FvCount(nverts)
    ensures 0 <= SubfaceId(nverts, g, i) < |F| && F[SubfaceId(nverts, g, i)].first == SubEdge(nverts, g, i, 0)
    ensures 0 <= SubEdge(nverts, g, i, 0) < |E| && E[SubEdge(nverts, g, i, 0)].next == SubEdge(nverts, g, i, 1)
    ensures 0 <= SubEdge(nverts, g, i, 1) < |E| && E[SubEdge(nverts, g, i, 1)].v == Mid(nverts, O, L, EdgeId(nverts, g, i))
  {
    InputOkNonNegative(nverts, verts);
    EdgeIdFace(nverts, g, i);
    SubLayoutFits(nverts, g, i);
    var e0 := SubEdge(nverts, g, i, 0);
    var e1 := SubEdge(nverts, g, i, 1);
    assert E[e0] == SubRec(nverts, verts, O, L, g, i, 0, E[e0].opposite);
    assert E[e1] == SubRec(nverts, verts, O, L, g, i, 1, E[e1].opposite);
  }

  /** The split lambda of subdiv_mesh for the edge of corner x = (f, c): the midpoint the
      neighbour across the edge already made if its subface exists, otherwise a fresh
      vertex from the counter. */
  method Split(b: MeshBuilder, nverts: seq<int>, verts: seq<int>, ghost O: seq<int>, ghost L: int,
               ghost f: int, ghost c: int, ghost s: int, x: int, nextV: int) returns (v: int, nextV': int)
    requires Stage(nverts, verts, O, L, b.mesh.edges[..], b.mesh.faces[..], f, s)
    requires 0 <= f < |nverts| && !Quad(nverts, f) && 0 <= c < nverts[f] && s == SplitSlot(c)
    requires x == EdgeId(nverts, f, c) && 0 <= x < FvCount(nverts) && nextV == VAt(nverts, O, L, x)
    ensures v == Mid(nverts, O, L, x)
    ensures nextV' == nextV + (if Shared(nverts, O, x) then 0 else 1)
  {
    ghost var E := b.mesh.edges[..];
    InputOkNonNegative(nverts, verts);
    EdgeIdFace(nverts, f, c);
    assert E[x].opposite == O[x];
    var op := b.mesh.edges[x].opposite;
    if op != -1 {
      ghost var g := FaceOf(nverts, op);
      ghost var i := CornerOf(nverts, op);
      DoneAtSplit(nverts, g, i, f, c);
      assert op == EdgeId(nverts, g, i);
      assert E[op].subFace == SubOf(nverts, g, i, f, s);
      if !Quad(nverts, g) && Done(nverts, g, i, f, s) {
        SubMid(nverts, verts, O, L, E, b.mesh.faces[..], f, s, g, i);
      }
      assert (E[op].subFace != -1) == Shared(nverts, O, x);
      if b.mesh.edges[op].subFace != -1 {
        var sub := b.mesh.edges[op].subFace;
        var first := b.mesh.faces[sub].first;
        var n := b.mesh.edges[first].next;
        v, nextV' := b.mesh.edges[n].v, nextV;
        return;
      }
    }
    v, nextV' := nextV, nextV + 1;
  }

  /** The corners next to corner j of face f, and the face and corner number of it. */
  lemma CornerLinks(nverts: seq<int>, f: int, j: int)
    requires NonNegative(nverts) && 0 <= f < |nverts| && 0 <= j < nverts[f]
    ensures 0 <= EdgeId(nverts, f, j) < FvCount(nverts)
    ensures FaceOf(nverts, EdgeId(nverts, f, j)) == f && CornerOf(nverts, EdgeId(nverts, f, j)) == j
    ensures PrevCorner(nverts, EdgeId(nverts, f, j)) == EdgeId(nverts, f, Pred(nverts[f], j))
    ensures NextCorner(nverts, EdgeId(nverts, f, j)) == EdgeId(nverts, f, Succ(nverts[f], j))
  {
    EdgeIdFace(nverts, f, j);
  }

  /** The vertex list add_face gets for the subface of corner x. */
  lemma CornerVerts(nverts: seq<int>, verts: seq<int>, O: seq<int>, L: int, f: int, j: int, x: int,
                    vs: seq<int>, prev: int)
    requires InputOk(nverts, verts) && Opposites(nverts, O) && 0 <= f < |nverts| && 0 <= j < nverts[f]
    requires x == EdgeId(nverts, f, j) && 0 <= x < FvCount(nverts) && prev == PrevCorner(nverts, x)
    requires vs == [verts[x], Mid(nverts, O, L, x), Center(nverts, O, L, f), Mid(nverts, O, L, prev)]
    ensures vs == SubVerts(nverts, verts, O, L, x)
  {
    CornerLinks(nverts, f, j);
  }

  /** One subface of the ring loop (or the last one, for corner 0): add_face with the
      corner's vertex, its midpoint, the centre and the previous midpoint, then the
      subface flag, the ptex index and the parent's sub_face link. */
  method AddCorner(b: MeshBuilder, nverts: seq<int>, verts: seq<int>, ghost O: seq<int>, ghost L: int,
                   ghost f: int, ghost j: int, ghost s: int, ghost s1: int, x: int, mid: int, center: int,
                   prevMid: int, p: int)
    requires b.Valid() && Stage(nverts, verts, O, L, b.mesh.edges[..], b.mesh.faces[..], f, s) && s1 == s + 1
    requires 0 <= f < |nverts| && !Quad(nverts, f) && 0 <= j < nverts[f] && Pred(nverts[f], j) == s
    requires x == EdgeId(nverts, f, j) && 0 <= x < FvCount(nverts)
    requires b.nextEdge == SubEdge(nverts, f, j, 0) && b.nextFace == SubfaceId(nverts, f, j) && p == SubPtex(nverts, f, j)
    requires mid == Mid(nverts, O, L, x) && center == Center(nverts, O, L, f)
    requires prevMid == Mid(nverts, O, L, PrevCorner(nverts, x))
    modifies b.mesh.edges, b.mesh.faces, b`edgeMap, b`nextEdge, b`nextFace
    ensures b.Valid() && Stage(nverts, verts, O, L, b.mesh.edges[..], b.mesh.faces[..], f, s1)
    ensures b.nextEdge == old(b.nextEdge) + 4 && b.nextFace == old(b.nextFace) + 1
  {
    ghost var E := b.mesh.edges[..];
    ghost var F := b.mesh.faces[..];
    assert E[x] == InputEdge(nverts, verts, f, j, O[x], -1);
    var vs := [b.mesh.edges[x].v, mid, center, prevMid];
    CornerVerts(nverts, verts, O, L, f, j, x, vs, PrevCorner(nverts, x));
    ghost var base := b.nextEdge;
    InputOkNonNegative(nverts, verts);
    SubLayoutFits(nverts, f, j);
    var sf := AddSubface(b, vs, p, x);
    StageAdd(nverts, verts, O, L, E, F, b.mesh.edges[..], b.mesh.faces[..], f, s, j, x, base, vs, sf, s1);
  }

  /** The edge, face and ptex counters when s subfaces of face f have been made. */
  predicate AtSlot(nverts: seq<int>, ne: int, nf: int, p: int, f: int, s: int)
    requires 0 <= f < |nverts|
  {
    ne == FvCount(nverts) + 4 * (SubBefore(nverts, f) + s) && nf == |nverts| + SubBefore(nverts, f) + s &&
    p == PtexBefore(nverts, f) + s
  }

  /** The edge, face, vertex and ptex counters when the face loop reaches face f. */
  predicate AtFace(nverts: seq<int>, O: seq<int>, L: int, ne: int, nf: int, v: int, p: int, f: int)
    requires Opposites(nverts, O) && 0 <= f <= |nverts|
  {
    ne == FvCount(nverts) + 4 * SubBefore(nverts, f) && nf == |nverts| + SubBefore(nverts, f) &&
    v == VStart(nverts, O, L, f) && p == PtexBefore(nverts, f)
  }

  /** The counters after split face f are those of face f1 = f + 1. */
  lemma FaceCounters(nverts: seq<int>, O: seq<int>, L: int, f: int, f1: int)
    requires Opposites(nverts, O) && 0 <= f < |nverts| && !Quad(nverts, f) && f1 == f + 1
    ensures SubBefore(nverts, f1) == SubBefore(nverts, f) + nverts[f]
    ensures PtexBefore(nverts, f1) == PtexBefore(nverts, f) + nverts[f]
    ensures VStart(nverts, O, L, f1) == VStart(nverts, O, L, f) + 1 + FreshIn(nverts, O, f, nverts[f])
  {
  }

  /** The fresh midpoints up to corner c1 = c + 1: those up to c, and c's own unless shared. */
  lemma FreshInStep(nverts: seq<int>, O: seq<int>, f: int, c: int, c1: int)
    requires Opposites(nverts, O) && 0 <= f < |nverts| && 0 <= c < nverts[f] && c1 == c + 1
    ensures 0 <= EdgeId(nverts, f, c) < FvCount(nverts)
    ensures FreshIn(nverts, O, f, c1) == FreshIn(nverts, O, f, c) + if Shared(nverts, O, EdgeId(nverts, f, c)) then 0 else 1
  {
    EdgeIdFace(nverts, f, c);
  }

  /** One pass of the ring loop at corner c >= 1: the corner's midpoint is chosen, its
      subface added, and the walk moves to the next corner.  The stage is compared with
      true so that the ring loop carries it as one fact rather than conjunct by conjunct. */
  method RingStep(b: MeshBuilder, nverts: seq<int>, verts: seq<int>, ghost O: seq<int>, ghost L: int,
                  ghost f: int, ghost c: int, ghost s: int, ghost c1: int, e: int, v: int, center: int,
                  prevV: int, p: int) returns (splitV: int, v': int, e': int, p': int)
    requires b.Valid() && (Stage(nverts, verts, O, L, b.mesh.edges[..], b.mesh.faces[..], f, s) == true)
    requires 0 <= f < |nverts| && !Quad(nverts, f) && 1 <= c < nverts[f] && s == c - 1 && c1 == c + 1
    requires e == EdgeId(nverts, f, c) && AtSlot(nverts, b.nextEdge, b.nextFace, p, f, s)
    requires v == VStart(nverts, O, L, f) + 1 + FreshIn(nverts, O, f, c)
    requires 0 <= EdgeId(nverts, f, s) < FvCount(nverts) && prevV == Mid(nverts, O, L, EdgeId(nverts, f, s))
    requires center == Center(nverts, O, L, f)
    modifies b.mesh.edges, b.mesh.faces, b`edgeMap, b`nextEdge, b`nextFace
    ensures b.Valid() && (Stage(nverts, verts, O, L, b.mesh.edges[..], b.mesh.faces[..], f, c) == true)
    ensures AtSlot(nverts, b.nextEdge, b.nextFace, p', f, c)
    ensures v' == VStart(nverts, O, L, f) + 1 + FreshIn(nverts, O, f, c1)
    ensures 0 <= e < FvCount(nverts) && splitV == Mid(nverts, O, L, e)
    ensures e' == EdgeId(nverts, f, if c1 == nverts[f] then 0 else c1)
  {
    InputOkNonNegative(nverts, verts);
    CornerLinks(nverts, f, c);
    splitV, v' := Split(b, nverts, verts, O, L, f, c, s, e, v);
    FreshInStep(nverts, O, f, c, c1);
    AddCorner(b, nverts, verts, O, L, f, c, s, c, e, splitV, center, prevV, p);
    assert b.mesh.edges[e] == InputEdge(nverts, verts, f, c, O[e], SubfaceId(nverts, f, c));
    p' := p + 1;
    e' := b.mesh.edges[e].next;
  }

  /** The walk round face f is back at corner 0 exactly when every corner has been visited. */
  lemma RingExit(nverts: seq<int>, f: int, c: int, e: int, first: int)
    requires 0 <= f < |nverts| && 1 <= c <= nverts[f]
    requires e == EdgeId(nverts, f, if c == nverts[f] then 0 else c) && first == EdgeId(nverts, f, 0)
    ensures e == first <==> c == nverts[f]
  {
  }

  /** The ring loop of subdiv_mesh for face f: from corner 1 until the walk is back at
      corner 0, one subface per corner. */
  method RingLoop(b: MeshBuilder, nverts: seq<int>, verts: seq<int>, ghost O: seq<int>, ghost L: int,
                  ghost f: int, ghost last: int, first: int, e: int, v: int, center: int, prevV: int, p: int)
    returns (v': int, prevV': int, p': int)
    requires b.Valid() && Stage(nverts, verts, O, L, b.mesh.edges[..], b.mesh.faces[..], f, 0)
    requires 0 <= f < |nverts| && !Quad(nverts, f) && last == nverts[f] - 1
    requires first == EdgeId(nverts, f, 0) && e == EdgeId(nverts, f, if nverts[f] == 1 then 0 else 1)
    requires AtSlot(nverts, b.nextEdge, b.nextFace, p, f, 0)
    requires v == VStart(nverts, O, L, f) + 1 + FreshIn(nverts, O, f, 1)
    requires 0 <= first < FvCount(nverts) && prevV == Mid(nverts, O, L, first)
    requires center == Center(nverts, O, L, f)
    modifies b.mesh.edges, b.mesh.faces, b`edgeMap, b`nextEdge, b`nextFace
    ensures b.Valid() && Stage(nverts, verts, O, L, b.mesh.edges[..], b.mesh.faces[..], f, last)
    ensures AtSlot(nverts, b.nextEdge, b.nextFace, p', f, last)
    ensures v' == VStart(nverts, O, L, f) + 1 + FreshIn(nverts, O, f, nverts[f])
    ensures 0 <= EdgeId(nverts, f, last) < FvCount(nverts) && prevV' == Mid(nverts, O, L, EdgeId(nverts, f, last))
  {
    var e := e;
    v', prevV', p' := v, prevV, p;
    ghost var c := 1;
    ghost var s := 0;
    RingExit(nverts, f, c, e, first);
    while e != first
      invariant 1 <= c <= nverts[f] && s == c - 1
      invariant e == EdgeId(nverts, f, if c == nverts[f] then 0 else c)
      invariant e == first <==> c == nverts[f]
      invariant b.Valid() && (Stage(nverts, verts, O, L, b.mesh.edges[..], b.mesh.faces[..], f, s) == true)
      invariant AtSlot(nverts, b.nextEdge, b.nextFace, p', f, s)
      invariant v' == VStart(nverts, O, L, f) + 1 + FreshIn(nverts, O, f, c)
      invariant 0 <= EdgeId(nverts, f, s) < FvCount(nverts) && prevV' == Mid(nverts, O, L, EdgeId(nverts, f, s))
      decreases nverts[f] - c
    {
      ghost var c1 := c + 1;
      prevV', v', e, p' := RingStep(b, nverts, verts, O, L, f, c, s, c1, e, v', center, prevV', p');
      c, s := c1, c;
      RingExit(nverts, f, c, e, first);
    }
    assert s == last;
  }

  /** The start of the else branch of the face loop: the centre vertex, the midpoint of
      corner 0 and the edge of corner 1. */
  method FaceStart(b: MeshBuilder, nverts: seq<int>, verts: seq<int>, ghost O: seq<int>, ghost L: int,
                   f: int, nextV: int) returns (center: int, v: int, first: int, firstSplit: int, e: int)
    requires Stage(nverts, verts, O, L, b.mesh.edges[..], b.mesh.faces[..], f, 0)
    requires 0 <= f < |nverts| && !Quad(nverts, f) && nextV == VStart(nverts, O, L, f)
    ensures center == Center(nverts, O, L, f) && v == VStart(nverts, O, L, f) + 1 + FreshIn(nverts, O, f, 1)
    ensures first == EdgeId(nverts, f, 0) && e == EdgeId(nverts, f, if nverts[f] == 1 then 0 else 1)
    ensures 0 <= first < FvCount(nverts) && firstSplit == Mid(nverts, O, L, first)
  {
    InputOkNonNegative(nverts, verts);
    center := nextV;
    v := nextV + 1;
    CornerLinks(nverts, f, 0);
    first := b.mesh.faces[f].first;
    firstSplit, v := Split(b, nverts, verts, O, L, f, 0, 0, first, v);
    assert b.mesh.edges[first] == InputEdge(nverts, verts, f, 0, O[first], -1);
    e := b.mesh.edges[first].next;
  }

  /** The end of the else branch of the face loop: the subface of corner 0, made last with
      the midpoint of corner 0 chosen first and that of the last corner. */
  method FaceFinish(b: MeshBuilder, nverts: seq<int>, verts: seq<int>, ghost O: seq<int>, ghost L: int,
                    ghost f: int, ghost last: int, first: int, firstSplit: int, center: int, prevV: int, p: int)
    requires b.Valid() && Stage(nverts, verts, O, L, b.mesh.edges[..], b.mesh.faces[..], f, last)
    requires 0 <= f < |nverts| && !Quad(nverts, f) && last == nverts[f] - 1
    requires first == EdgeId(nverts, f, 0) && 0 <= first < FvCount(nverts) && firstSplit == Mid(nverts, O, L, first)
    requires AtSlot(nverts, b.nextEdge, b.nextFace, p, f, last)
    requires center == Center(nverts, O, L, f)
    requires 0 <= EdgeId(nverts, f, last) < FvCount(nverts) && prevV == Mid(nverts, O, L, EdgeId(nverts, f, last))
    modifies b.mesh.edges, b.mesh.faces, b`edgeMap, b`nextEdge, b`nextFace
    ensures b.Valid() && Stage(nverts, verts, O, L, b.mesh.edges[..], b.mesh.faces[..], f + 1, 0)
    ensures b.nextEdge == FvCount(nverts) + 4 * SubBefore(nverts, f + 1)
    ensures b.nextFace == |nverts| + SubBefore(nverts, f + 1)
  {
    InputOkNonNegative(nverts, verts);
    CornerLinks(nverts, f, 0);
    ghost var nv := nverts[f];
    AddCorner(b, nverts, verts, O, L, f, 0, last, nv, first, firstSplit, center, prevV, p);
    StageNext(nverts, verts, O, L, b.mesh.edges[..], b.mesh.faces[..], f);
  }

  /** The subdivision of one input face that is not a quad (the else branch of the face
      loop of subdiv_mesh): a centre vertex, then one subface per corner from corner 1
      round to corner 0, each with the corner's vertex, its midpoint, the centre and the
      previous corner's midpoint. */
  method SubdivFace(b: MeshBuilder, nverts: seq<int>, verts: seq<int>, ghost O: seq<int>, ghost L: int,
                    f: int, nextV: int, ptex: int) returns (nextV': int, ptex': int)
    requires b.Valid() && Stage(nverts, verts, O, L, b.mesh.edges[..], b.mesh.faces[..], f, 0)
    requires 0 <= f < |nverts| && !Quad(nverts, f)
    requires AtFace(nverts, O, L, b.nextEdge, b.nextFace, nextV, ptex, f)
    modifies b.mesh.edges, b.mesh.faces, b`edgeMap, b`nextEdge, b`nextFace
    ensures b.Valid() && Stage(nverts, verts, O, L, b.mesh.edges[..], b.mesh.faces[..], f + 1, 0)
    ensures AtFace(nverts, O, L, b.nextEdge, b.nextFace, nextV', ptex', f + 1)
  {
    var center, v, first, firstSplit, e := FaceStart(b, nverts, verts, O, L, f, nextV);
    ghost var last := nverts[f] - 1;
    ghost var f1 := f + 1;
    FaceCounters(nverts, O, L, f, f1);
    var prevV, p;
    v, prevV, p := RingLoop(b, nverts, verts, O, L, f, last, first, e, v, center, firstSplit, ptex);
    FaceFinish(b, nverts, verts, O, L, f, last, first, firstSplit, center, prevV, p);
    nextV', ptex' := v, p + 1;
  }

  /** Setting a face's ptex index keeps the builder state. */
  lemma PtexKeepsWf(E: seq<Edge>, F: seq<Face>, M: map<Pair, int>, ne: int, nf: int, f: int, ptex: int, F': seq<Face>)
    requires Wf(E, F, M, ne, nf) && 0 <= f < nf && F' == F[f := F[f].(ptexIndex := ptex)]
    ensures Wf(E, F', M, ne, nf)
  {
  }

  /** The quad branch of the face loop of subdiv_mesh: the face keeps its ring and gets the
      next ptex index. */
  method QuadFace(b: MeshBuilder, nverts: seq<int>, verts: seq<int>, ghost O: seq<int>, ghost L: int,
                  f: int, nextV: int, ptex: int) returns (ptex': int)
    requires b.Valid() && Stage(nverts, verts, O, L, b.mesh.edges[..], b.mesh.faces[..], f, 0)
    requires 0 <= f < |nverts| && Quad(nverts, f)
    requires AtFace(nverts, O, L, b.nextEdge, b.nextFace, nextV, ptex, f)
    modifies b.mesh.faces
    ensures b.Valid() && Stage(nverts, verts, O, L, b.mesh.edges[..], b.mesh.faces[..], f + 1, 0)
    ensures AtFace(nverts, O, L, b.nextEdge, b.nextFace, nextV, ptex', f + 1)
  {
    ghost var F := b.mesh.faces[..];
    b.mesh.faces[f] := b.mesh.faces[f].(ptexIndex := ptex);
    PtexKeepsWf(b.mesh.edges[..], F, b.edgeMap, b.nextEdge, b.nextFace, f, ptex, b.mesh.faces[..]);
    StageQuad(nverts, verts, O, L, b.mesh.edges[..], F, b.mesh.faces[..], f);
    ptex' := ptex + 1;
  }

  /** One round of subdiv_mesh's face loop: a quad only gets the next ptex index, any
      other face is split. */
  method HandleFace(b: MeshBuilder, nverts: seq<int>, verts: seq<int>, ghost O: seq<int>, ghost L: int,
                    f: int, nextV: int, ptex: int) returns (nextV': int, ptex': int)
    requires b.Valid() && Stage(nverts, verts, O, L, b.mesh.edges[..], b.mesh.faces[..], f, 0)
    requires 0 <= f < |nverts|
    requires AtFace(nverts, O, L, b.nextEdge, b.nextFace, nextV, ptex, f)
    modifies b.mesh.edges, b.mesh.faces, b`edgeMap, b`nextEdge, b`nextFace
    ensures b.Valid() && Stage(nverts, verts, O, L, b.mesh.edges[..], b.mesh.faces[..], f + 1, 0)
    ensures AtFace(nverts, O, L, b.nextEdge, b.nextFace, nextV', ptex', f + 1)
  {
    if nverts[f] == 4 {
      nextV' := nextV;
      ptex' := QuadFace(b, nverts, verts, O, L, f, nextV, ptex);
    } else {
      nextV', ptex' := SubdivFace(b, nverts, verts, O, L, f, nextV, ptex);
    }
  }

  /** The face loop of subdiv_mesh: every input face is handled in order. */
  method SubdivLoop(b: MeshBuilder, nverts: seq<int>, verts: seq<int>, ghost O: seq<int>, ghost L: int,
                    nextV0: int) returns (nextV: int, ptex: int)
    requires b.Valid() && Stage(nverts, verts, O, L, b.mesh.edges[..], b.mesh.faces[..], 0, 0)
    requires AtFace(nverts, O, L, b.nextEdge, b.nextFace, nextV0, 0, 0)
    modifies b.mesh.edges, b.mesh.faces, b`edgeMap, b`nextEdge, b`nextFace
    ensures b.Valid() && Stage(nverts, verts, O, L, b.mesh.edges[..], b.mesh.faces[..], |nverts|, 0)
    ensures AtFace(nverts, O, L, b.nextEdge, b.nextFace, nextV, ptex, |nverts|)
  {
    nextV, ptex := nextV0, 0;
    var f := 0;
    while f < |nverts|
      invariant 0 <= f <= |nverts|
      invariant b.Valid() && Stage(nverts, verts, O, L, b.mesh.edges[..], b.mesh.faces[..], f, 0)
      invariant AtFace(nverts, O, L, b.nextEdge, b.nextFace, nextV, ptex, f)
    {
      nextV, ptex := HandleFace(b, nverts, verts, O, L, f, nextV, ptex);
      f := f + 1;
    }
  }

  /** The face loop of subdiv_mesh: a quad only gets the next ptex index, any other face is
      split.  Afterwards every arena slot is used and every input face has been handled. */
  method SubdivFaces(b: MeshBuilder, nverts: seq<int>, verts: seq<int>, ghost O: seq<int>, ghost L: int,
                     nextV0: int) returns (nextV: int, ptex: int)
    requires b.Valid() && Stage(nverts, verts, O, L, b.mesh.edges[..], b.mesh.faces[..], 0, 0)
    requires b.nextEdge == FvCount(nverts) && b.nextFace == |nverts| && nextV0 == L + 1
    modifies b.mesh.edges, b.mesh.faces, b`edgeMap, b`nextEdge, b`nextFace
    ensures b.Valid() && Stage(nverts, verts, O, L, b.mesh.edges[..], b.mesh.faces[..], |nverts|, 0)
    ensures b.nextEdge == TotalEdges(nverts) && b.nextFace == TotalFaces(nverts)
    ensures nextV == VStart(nverts, O, L, |nverts|) && ptex == PtexFaces(nverts)
  {
    nextV, ptex := SubdivLoop(b, nverts, verts, O, L, nextV0);
    EdgesSplit(nverts, |nverts|);
    FacesSplit(nverts, |nverts|);
  }
}
