/** The second loop of subdiv_mesh and assign_subface_adjacency: once every face is split,
    each quad edge of the final mesh gets the edge it borders in the ptex sense.

    The source finds that edge by following links.  Its target is stated here in terms of
    the arena layout: a corner's opposite o lands on o itself when o's face is kept, and
    otherwise on edge 3 of the subface of the corner after o, the half of the split edge
    that starts at its midpoint. */
module Adjacency {
  import opened Counts
  import opened HalfEdge
  import opened Layout
  import opened Build
  import opened Subdiv

  /** The split face holding subface slot q, slots counted over all split faces in face
      order, searching from face g. */
  function SplitFaceFrom(nverts: seq<int>, q: int, g: nat): (h: int)
    requires NonNegative(nverts) && g <= |nverts| && SubBefore(nverts, g) <= q < SubBefore(nverts, |nverts|)
    ensures g <= h < |nverts| && SubBefore(nverts, h) <= q < SubBefore(nverts, h + 1) && !Quad(nverts, h)
    decreases |nverts| - g
  {
    if g == |nverts| then assert false; g
    else if q < SubBefore(nverts, g + 1) then g
    else SplitFaceFrom(nverts, q, g + 1)
  }

  /** A subface slot lies in the block of exactly one face. */
  lemma SplitFaceUnique(nverts: seq<int>, g: int, q: int)
    requires NonNegative(nverts) && 0 <= g < |nverts|
    requires SubBefore(nverts, g) <= q < SubBefore(nverts, g + 1)
    ensures q < SubBefore(nverts, |nverts|) && SplitFaceFrom(nverts, q, 0) == g
  {
    SubBeforeMono(nverts, g + 1, |nverts|);
    var r := SplitFaceFrom(nverts, q, 0);
    if r < g {
      SubBeforeMono(nverts, r + 1, g);
    } else if r > g {
      SubBeforeMono(nverts, g + 1, r);
    }
  }

  /** The input corner whose visit in the adjacency loop sets the adjacent link of edge y:
      an input corner itself, or the corner a subface edge was made for. */
  function Owner(nverts: seq<int>, y: int): (x: int)
    requires NonNegative(nverts) && 0 <= y < TotalEdges(nverts)
    ensures 0 <= x < FvCount(nverts)
  {
    if y < FvCount(nverts) then y
    else
      EdgesSplit(nverts, |nverts|);
      var q := (y - FvCount(nverts)) / 4;
      var g := SplitFaceFrom(nverts, q, 0);
      var j := Succ(nverts[g], q - SubBefore(nverts, g));
      EdgeIdFace(nverts, g, j);
      EdgeId(nverts, g, j)
  }

  /** Edge k of the subface of corner j is owned by that corner. */
  lemma OwnerOfSub(nverts: seq<int>, g: int, j: int, k: int)
    requires NonNegative(nverts) && 0 <= g < |nverts| && !Quad(nverts, g) && 0 <= j < nverts[g] && 0 <= k < 4
    ensures FvCount(nverts) <= SubEdge(nverts, g, j, k) < TotalEdges(nverts)
    ensures Owner(nverts, SubEdge(nverts, g, j, k)) == EdgeId(nverts, g, j)
    ensures (SubEdge(nverts, g, j, k) - FvCount(nverts)) % 4 == k
  {
    SubLayoutFits(nverts, g, j);
    SuccPred(nverts[g], j);
    var q := SubBefore(nverts, g) + Pred(nverts[g], j);
    assert (SubEdge(nverts, g, j, k) - FvCount(nverts)) / 4 == q;
    assert SubBefore(nverts, g + 1) == SubBefore(nverts, g) + nverts[g];
    SplitFaceUnique(nverts, g, q);
  }

  /** Every edge past the input corners is edge (y - FvCount) % 4 of its owner's subface. */
  lemma OwnedSub(nverts: seq<int>, y: int)
    requires NonNegative(nverts) && FvCount(nverts) <= y < TotalEdges(nverts)
    ensures var x := Owner(nverts, y);
      !Quad(nverts, FaceOf(nverts, x)) &&
      y == SubEdge(nverts, FaceOf(nverts, x), CornerOf(nverts, x), (y - FvCount(nverts)) % 4)
  {
    EdgesSplit(nverts, |nverts|);
    var q := (y - FvCount(nverts)) / 4;
    var g := SplitFaceFrom(nverts, q, 0);
    var slot := q - SubBefore(nverts, g);
    assert SubBefore(nverts, g + 1) == SubBefore(nverts, g) + nverts[g];
    var j := Succ(nverts[g], slot);
    SuccPred(nverts[g], slot);
    CornerLinks(nverts, g, j);
  }

  /** A corner of a kept quad owns no edge but its own. */
  lemma QuadOwnsItself(nverts: seq<int>, x: int, y: int)
    requires NonNegative(nverts) && 0 <= x < FvCount(nverts) && Quad(nverts, FaceOf(nverts, x))
    requires 0 <= y < TotalEdges(nverts) && Owner(nverts, y) == x
    ensures y == x
  {
    if y >= FvCount(nverts) {
      OwnedSub(nverts, y);
    }
  }

  /** The edge a link across to corner o lands on: o itself when o's face is kept, else
      edge 3 of the subface of the corner after o. */
  function AcrossEdge(nverts: seq<int>, o: int): int
    requires NonNegative(nverts) && 0 <= o < FvCount(nverts)
  {
    var h := FaceOf(nverts, o);
    if Quad(nverts, h) then o else SubEdge(nverts, h, Succ(nverts[h], CornerOf(nverts, o)), 3)
  }

  /** Adjacent link of a quad corner, and of edge 0 of a split corner's subface: across the
      corner's opposite, or null on a boundary. */
  function FirstAdj(nverts: seq<int>, O: seq<int>, x: int): int
    requires Opposites(nverts, O) && 0 <= x < |O|
  {
    if O[x] == -1 then -1 else AcrossEdge(nverts, O[x])
  }

  /** Adjacent link of edge 3 of a split corner's subface: the opposite p of the corner
      before, or edge 0 of p's subface when p's face is split; null on a boundary. */
  function LastAdj(nverts: seq<int>, O: seq<int>, x: int): int
    requires Opposites(nverts, O) && 0 <= x < |O|
  {
    var p := O[PrevCorner(nverts, x)];
    if p == -1 then -1
    else
      var h := FaceOf(nverts, p);
      if Quad(nverts, h) then p else SubEdge(nverts, h, CornerOf(nverts, p), 0)
  }

  /** The adjacent link edge y ends with: a quad corner's is FirstAdj, a split corner keeps
      null, and the four edges of a subface get FirstAdj, their own opposite twice, and
      LastAdj.  E0 is the mesh before the loop, whose opposite links it does not change. */
  function AdjOf(nverts: seq<int>, O: seq<int>, E0: seq<Edge>, y: int): int
    requires Opposites(nverts, O) && |E0| == TotalEdges(nverts) && 0 <= y < |E0|
  {
    var x := Owner(nverts, y);
    if y < FvCount(nverts) then
      if Quad(nverts, FaceOf(nverts, y)) then FirstAdj(nverts, O, y) else -1
    else
      var k := (y - FvCount(nverts)) % 4;
      if k == 0 then FirstAdj(nverts, O, x)
      else if k == 3 then LastAdj(nverts, O, x)
      else E0[y].opposite
  }

  /** The mesh after the adjacency loop: E0 with every adjacent link resolved. */
  function Resolved(nverts: seq<int>, O: seq<int>, E0: seq<Edge>): (E: seq<Edge>)
    requires Opposites(nverts, O) && |E0| == TotalEdges(nverts)
    ensures |E| == |E0|
  {
    seq(|E0|, y requires 0 <= y < |E0| && Opposites(nverts, O) && |E0| == TotalEdges(nverts) =>
      E0[y].(adjacent := AdjOf(nverts, O, E0, y)))
  }

  /** The adjacency loop has visited the corners before cur: exactly the edges they own
      have their adjacent link set. */
  predicate AdjDone(nverts: seq<int>, O: seq<int>, E0: seq<Edge>, E: seq<Edge>, cur: int)
    requires Opposites(nverts, O) && |E0| == TotalEdges(nverts)
  {
    |E| == |E0| &&
    forall y | 0 <= y < |E| ::
      E[y] == E0[y].(adjacent := if Owner(nverts, y) < cur then AdjOf(nverts, O, E0, y) else E0[y].adjacent)
  }

  /** Everything but adjacent links is as in E0. */
  predicate LinksKept(E0: seq<Edge>, E: seq<Edge>)
  {
    |E| == |E0| && forall y | 0 <= y < |E| :: E[y] == E0[y].(adjacent := E[y].adjacent)
  }

  lemma AdjDoneLinks(nverts: seq<int>, O: seq<int>, E0: seq<Edge>, E: seq<Edge>, cur: int)
    requires Opposites(nverts, O) && |E0| == TotalEdges(nverts) && AdjDone(nverts, O, E0, E, cur)
    ensures LinksKept(E0, E)
  {
  }

  /** What the split mesh holds at corner j of face g: the corner's own edge, and, when g is
      split, the subface of the corner and its four edges. */
  lemma CornerAt(nverts: seq<int>, verts: seq<int>, O: seq<int>, L: int, E: seq<Edge>, F: seq<Face>, g: int, j: int)
    requires Stage(nverts, verts, O, L, E, F, |nverts|, 0) && 0 <= g < |nverts| && 0 <= j < nverts[g]
    ensures var x := EdgeId(nverts, g, j);
      0 <= x < FvCount(nverts) && FaceOf(nverts, x) == g && CornerOf(nverts, x) == j &&
      E[x] == InputEdge(nverts, verts, g, j, O[x], if Quad(nverts, g) then -1 else SubfaceId(nverts, g, j))
    ensures !Quad(nverts, g) ==>
      0 <= SubfaceId(nverts, g, j) < |F| && F[SubfaceId(nverts, g, j)] == SubFaceRec(nverts, g, j) &&
      FvCount(nverts) <= SubEdge(nverts, g, j, 0) && SubEdge(nverts, g, j, 3) < |E| &&
      forall k | 0 <= k < 4 ::
        E[SubEdge(nverts, g, j, k)] == SubRec(nverts, verts, O, L, g, j, k, E[SubEdge(nverts, g, j, k)].opposite)
  {
    InputOkNonNegative(nverts, verts);
    CornerLinks(nverts, g, j);
    if !Quad(nverts, g) {
      SubLayoutFits(nverts, g, j);
    }
  }

  /** The redirect shared by assign_subface_adjacency and the quad branch of the loop: the
      opposite of corner x, or, when that opposite has a subface, the edge before the first
      edge of the subface of the corner after it. */
  method AcrossLink(m: HalfMesh, nverts: seq<int>, ghost verts: seq<int>, ghost O: seq<int>, ghost L: int,
                    ghost E0: seq<Edge>, x: int) returns (a: int)
    requires Stage(nverts, verts, O, L, E0, m.faces[..], |nverts|, 0) && LinksKept(E0, m.edges[..])
    requires 0 <= x < FvCount(nverts)
    ensures a == FirstAdj(nverts, O, x)
  {
    InputOkNonNegative(nverts, verts);
    CornerAt(nverts, verts, O, L, E0, m.faces[..], FaceOf(nverts, x), CornerOf(nverts, x));
    a := m.edges[x].opposite;
    if a != -1 {
      var h, i := FaceOf(nverts, a), CornerOf(nverts, a);
      CornerAt(nverts, verts, O, L, E0, m.faces[..], h, i);
      if m.edges[a].subFace != -1 {
        CornerAt(nverts, verts, O, L, E0, m.faces[..], h, Succ(nverts[h], i));
        var n := m.edges[a].next;
        a := m.edges[m.faces[m.edges[n].subFace].first].prev;
      }
    }
  }

  /** The last_adj computation of assign_subface_adjacency: prev_vert of corner x, or the
      first edge of its subface when it has one. */
  method PrevLink(m: HalfMesh, nverts: seq<int>, ghost verts: seq<int>, ghost O: seq<int>, ghost L: int,
                  ghost E0: seq<Edge>, x: int) returns (a: int)
    requires Stage(nverts, verts, O, L, E0, m.faces[..], |nverts|, 0) && LinksKept(E0, m.edges[..])
    requires 0 <= x < FvCount(nverts)
    ensures a == LastAdj(nverts, O, x)
  {
    InputOkNonNegative(nverts, verts);
    var g, j := FaceOf(nverts, x), CornerOf(nverts, x);
    CornerAt(nverts, verts, O, L, E0, m.faces[..], g, j);
    CornerAt(nverts, verts, O, L, E0, m.faces[..], g, Pred(nverts[g], j));
    a := m.edges[m.edges[x].prev].opposite;
    if a != -1 {
      CornerAt(nverts, verts, O, L, E0, m.faces[..], FaceOf(nverts, a), CornerOf(nverts, a));
      if m.edges[a].subFace != -1 {
        a := m.faces[m.edges[a].subFace].first;
      }
    }
  }

  /** E with the adjacent link of edge y set to a. */
  function Set(E: seq<Edge>, y: int, a: int): (E': seq<Edge>)
    requires 0 <= y < |E|
    ensures |E'| == |E| && E'[y].adjacent == a
  {
    E[y := E[y].(adjacent := a)]
  }

  /** Setting the adjacent links of the four edges of corner x's subface, and nothing
      else, completes x's visit. */
  lemma AssignStep(nverts: seq<int>, O: seq<int>, E0: seq<Edge>, E: seq<Edge>, E': seq<Edge>, g: int, j: int)
    requires Opposites(nverts, O) && |E0| == TotalEdges(nverts)
    requires 0 <= g < |nverts| && !Quad(nverts, g) && 0 <= j < nverts[g]
    requires 0 <= EdgeId(nverts, g, j) < FvCount(nverts) && AdjDone(nverts, O, E0, E, EdgeId(nverts, g, j))
    requires EdgeId(nverts, g, j) < |E0| && E0[EdgeId(nverts, g, j)].adjacent == -1
    requires 0 <= SubEdge(nverts, g, j, 0) && SubEdge(nverts, g, j, 3) < |E|
    requires E' == Set(Set(Set(Set(E, SubEdge(nverts, g, j, 0), AdjOf(nverts, O, E0, SubEdge(nverts, g, j, 0))),
                                    SubEdge(nverts, g, j, 1), AdjOf(nverts, O, E0, SubEdge(nverts, g, j, 1))),
                                SubEdge(nverts, g, j, 2), AdjOf(nverts, O, E0, SubEdge(nverts, g, j, 2))),
                            SubEdge(nverts, g, j, 3), AdjOf(nverts, O, E0, SubEdge(nverts, g, j, 3)))
    ensures AdjDone(nverts, O, E0, E', EdgeId(nverts, g, j) + 1)
  {
    var x := EdgeId(nverts, g, j);
    EdgeIdFace(nverts, g, j);
    var a, b, c, d := SubEdge(nverts, g, j, 0), SubEdge(nverts, g, j, 1), SubEdge(nverts, g, j, 2), SubEdge(nverts, g, j, 3);
    OwnerOfSub(nverts, g, j, 0);
    OwnerOfSub(nverts, g, j, 1);
    OwnerOfSub(nverts, g, j, 2);
    OwnerOfSub(nverts, g, j, 3);
    forall y | 0 <= y < |E'|
      ensures E'[y] == E0[y].(adjacent := if Owner(nverts, y) < x + 1 then AdjOf(nverts, O, E0, y) else E0[y].adjacent)
    {
      if y == a || y == b || y == c || y == d {
        assert E'[y] == E[y].(adjacent := AdjOf(nverts, O, E0, y));
      } else {
        assert E'[y] == E[y];
        if FvCount(nverts) <= y && Owner(nverts, y) == x {
          OwnedSub(nverts, y);
          assert false;
        }
      }
    }
  }

  /** assign_subface_adjacency for a corner with a subface: edge 0 of the subface borders
      what lies across the corner's opposite, edges 1 and 2 their own opposites, and edge 3
      what lies across the opposite of the corner before. */
  method AssignSubfaceAdjacency(m: HalfMesh, nverts: seq<int>, ghost verts: seq<int>, ghost O: seq<int>,
                                ghost L: int, ghost E0: seq<Edge>, parent: int)
    requires Stage(nverts, verts, O, L, E0, m.faces[..], |nverts|, 0) && AdjDone(nverts, O, E0, m.edges[..], parent)
    requires 0 <= parent < FvCount(nverts) && !Quad(nverts, FaceOf(nverts, parent))
    modifies m.edges
    ensures AdjDone(nverts, O, E0, m.edges[..], parent + 1)
  {
    ghost var E := m.edges[..];
    ghost var g, j := FaceOf(nverts, parent), CornerOf(nverts, parent);
    AdjDoneLinks(nverts, O, E0, m.edges[..], parent);
    var firstAdj := AcrossLink(m, nverts, verts, O, L, E0, parent);
    var lastAdj := PrevLink(m, nverts, verts, O, L, E0, parent);
    var e1, e2, e3, e4 := SubfaceEdges(m, nverts, verts, O, L, E0, parent);
    SubAdj(nverts, O, E0, g, j);
    SetAdjacent(m, e1, firstAdj);
    SetAdjacent(m, e2, m.edges[e2].opposite);
    SetAdjacent(m, e3, m.edges[e3].opposite);
    SetAdjacent(m, e4, lastAdj);
    AssignStep(nverts, O, E0, E, m.edges[..], g, j);
  }

  /** The four edges of the subface of corner x, reached from x's subface link and then
      along the ring. */
  method SubfaceEdges(m: HalfMesh, nverts: seq<int>, ghost verts: seq<int>, ghost O: seq<int>, ghost L: int,
                      ghost E0: seq<Edge>, x: int) returns (e1: int, e2: int, e3: int, e4: int)
    requires Stage(nverts, verts, O, L, E0, m.faces[..], |nverts|, 0) && LinksKept(E0, m.edges[..])
    requires 0 <= x < FvCount(nverts) && !Quad(nverts, FaceOf(nverts, x))
    ensures FvCount(nverts) <= e1 && e4 < |E0|
    ensures var g, j := FaceOf(nverts, x), CornerOf(nverts, x);
      e1 == SubEdge(nverts, g, j, 0) && e2 == SubEdge(nverts, g, j, 1) &&
      e3 == SubEdge(nverts, g, j, 2) && e4 == SubEdge(nverts, g, j, 3)
  {
    InputOkNonNegative(nverts, verts);
    ghost var g, j := FaceOf(nverts, x), CornerOf(nverts, x);
    CornerAt(nverts, verts, O, L, E0, m.faces[..], g, j);
    e1 := m.faces[m.edges[x].subFace].first;
    e2 := m.edges[e1].next;
    e3 := m.edges[e2].next;
    e4 := m.edges[e3].next;
  }

  /** One store of an adjacent link. */
  method SetAdjacent(m: HalfMesh, y: int, a: int)
    requires 0 <= y < m.edges.Length
    modifies m.edges
    ensures m.edges[..] == Set(old(m.edges[..]), y, a)
  {
    m.edges[y] := m.edges[y].(adjacent := a);
  }

  /** The adjacent links AdjOf gives the four edges of a subface. */
  lemma SubAdj(nverts: seq<int>, O: seq<int>, E0: seq<Edge>, g: int, j: int)
    requires Opposites(nverts, O) && |E0| == TotalEdges(nverts)
    requires 0 <= g < |nverts| && !Quad(nverts, g) && 0 <= j < nverts[g]
    ensures FvCount(nverts) <= SubEdge(nverts, g, j, 0) && SubEdge(nverts, g, j, 3) < |E0|
    ensures 0 <= EdgeId(nverts, g, j) < FvCount(nverts)
    ensures AdjOf(nverts, O, E0, SubEdge(nverts, g, j, 0)) == FirstAdj(nverts, O, EdgeId(nverts, g, j))
    ensures AdjOf(nverts, O, E0, SubEdge(nverts, g, j, 1)) == E0[SubEdge(nverts, g, j, 1)].opposite
    ensures AdjOf(nverts, O, E0, SubEdge(nverts, g, j, 2)) == E0[SubEdge(nverts, g, j, 2)].opposite
    ensures AdjOf(nverts, O, E0, SubEdge(nverts, g, j, 3)) == LastAdj(nverts, O, EdgeId(nverts, g, j))
  {
    SubAdjAt(nverts, O, E0, g, j, 0);
    SubAdjAt(nverts, O, E0, g, j, 1);
    SubAdjAt(nverts, O, E0, g, j, 2);
    SubAdjAt(nverts, O, E0, g, j, 3);
  }

  /** SubAdj for one edge k of the subface. */
  lemma SubAdjAt(nverts: seq<int>, O: seq<int>, E0: seq<Edge>, g: int, j: int, k: int)
    requires Opposites(nverts, O) && |E0| == TotalEdges(nverts)
    requires 0 <= g < |nverts| && !Quad(nverts, g) && 0 <= j < nverts[g] && 0 <= k < 4
    ensures FvCount(nverts) <= SubEdge(nverts, g, j, k) < |E0|
    ensures 0 <= EdgeId(nverts, g, j) < FvCount(nverts)
    ensures AdjOf(nverts, O, E0, SubEdge(nverts, g, j, k)) ==
      if k == 0 then FirstAdj(nverts, O, EdgeId(nverts, g, j))
      else if k == 3 then LastAdj(nverts, O, EdgeId(nverts, g, j))
      else E0[SubEdge(nverts, g, j, k)].opposite
  {
    EdgeIdFace(nverts, g, j);
    OwnerOfSub(nverts, g, j, k);
    var y := SubEdge(nverts, g, j, k);
    assert Owner(nverts, y) == EdgeId(nverts, g, j);
    assert (y - FvCount(nverts)) % 4 == k;
  }

  /** Two split faces sharing an edge are adjacent both ways: when corner j of face g and
      corner i of face h are each other's opposite, edge 0 of the subface of corner j
      meets edge 3 of the subface of the corner after i, and that edge meets it back. */
  lemma SplitNeighboursMutual(nverts: seq<int>, O: seq<int>, E0: seq<Edge>, g: int, j: int, h: int, i: int)
    requires Opposites(nverts, O) && |E0| == TotalEdges(nverts)
    requires 0 <= g < |nverts| && !Quad(nverts, g) && 0 <= j < nverts[g]
    requires 0 <= h < |nverts| && !Quad(nverts, h) && 0 <= i < nverts[h]
    requires 0 <= EdgeId(nverts, g, j) < |O| && 0 <= EdgeId(nverts, h, i) < |O|
    requires O[EdgeId(nverts, g, j)] == EdgeId(nverts, h, i) && O[EdgeId(nverts, h, i)] == EdgeId(nverts, g, j)
    ensures var a, b := SubEdge(nverts, g, j, 0), SubEdge(nverts, h, Succ(nverts[h], i), 3);
      FvCount(nverts) <= a < |E0| && FvCount(nverts) <= b < |E0| &&
      AdjOf(nverts, O, E0, a) == b && AdjOf(nverts, O, E0, b) == a
  {
    var x, o := EdgeId(nverts, g, j), EdgeId(nverts, h, i);
    SuccPred(nverts[h], i);
    var i1 := Succ(nverts[h], i);
    SubAdj(nverts, O, E0, g, j);
    SubAdj(nverts, O, E0, h, i1);
    CornerLinks(nverts, h, i);
    CornerLinks(nverts, h, i1);
    CornerLinks(nverts, g, j);
  }

  /** Two kept quads sharing an edge are adjacent both ways: corner x's adjacent edge is its
      opposite o, and o's is x. */
  lemma QuadNeighboursMutual(nverts: seq<int>, O: seq<int>, E0: seq<Edge>, x: int, o: int)
    requires Opposites(nverts, O) && |E0| == TotalEdges(nverts)
    requires 0 <= x < |O| && 0 <= o < |O| && O[x] == o && O[o] == x
    requires Quad(nverts, FaceOf(nverts, x)) && Quad(nverts, FaceOf(nverts, o))
    ensures FvCount(nverts) <= |E0|
    ensures AdjOf(nverts, O, E0, x) == o && AdjOf(nverts, O, E0, o) == x
  {
    EdgesSplit(nverts, |nverts|);
  }

  /** Where a kept quad meets a split face the links are not mutual: edge 0 of the subface
      of corner j points at the quad's corner o, while o points at edge 3 of the subface of
      the corner after j, the other half of the split edge. */
  lemma QuadSplitOneWay(nverts: seq<int>, O: seq<int>, E0: seq<Edge>, g: int, j: int, o: int)
    requires Opposites(nverts, O) && |E0| == TotalEdges(nverts)
    requires 0 <= g < |nverts| && !Quad(nverts, g) && 0 <= j < nverts[g]
    requires 0 <= EdgeId(nverts, g, j) < |O| && 0 <= o < |O| && Quad(nverts, FaceOf(nverts, o))
    requires O[EdgeId(nverts, g, j)] == o && O[o] == EdgeId(nverts, g, j)
    ensures var a, b := SubEdge(nverts, g, j, 0), SubEdge(nverts, g, Succ(nverts[g], j), 3);
      FvCount(nverts) <= a < |E0| && FvCount(nverts) <= b < |E0| && a != b && o < |E0| &&
      AdjOf(nverts, O, E0, a) == o && AdjOf(nverts, O, E0, b) == o && AdjOf(nverts, O, E0, o) == b
  {
    var j1 := Succ(nverts[g], j);
    SuccPred(nverts[g], j);
    SubAdj(nverts, O, E0, g, j);
    SubAdj(nverts, O, E0, g, j1);
    CornerLinks(nverts, g, j);
    CornerLinks(nverts, g, j1);
  }

  /** Visiting a corner of a kept quad sets its own adjacent link and nothing else; when
      there is nothing across, the link stays null. */
  lemma QuadStep(nverts: seq<int>, O: seq<int>, E0: seq<Edge>, E: seq<Edge>, E': seq<Edge>, x: int)
    requires Opposites(nverts, O) && |E0| == TotalEdges(nverts)
    requires 0 <= x < FvCount(nverts) && Quad(nverts, FaceOf(nverts, x)) && AdjDone(nverts, O, E0, E, x)
    requires x < |E0| && E0[x].adjacent == -1
    requires E' == if FirstAdj(nverts, O, x) == -1 then E else Set(E, x, FirstAdj(nverts, O, x))
    ensures AdjDone(nverts, O, E0, E', x + 1)
  {
    forall y | 0 <= y < |E'|
      ensures E'[y] == E0[y].(adjacent := if Owner(nverts, y) < x + 1 then AdjOf(nverts, O, E0, y) else E0[y].adjacent)
    {
      if Owner(nverts, y) == x {
        QuadOwnsItself(nverts, x, y);
      }
    }
  }

  /** One visit of the do-while loop over a face's ring: a corner with a subface gets
      assign_subface_adjacency, any other corner the link across its opposite. */
  method ResolveCorner(m: HalfMesh, nverts: seq<int>, ghost verts: seq<int>, ghost O: seq<int>, ghost L: int,
                       ghost E0: seq<Edge>, e: int)
    requires Stage(nverts, verts, O, L, E0, m.faces[..], |nverts|, 0) && AdjDone(nverts, O, E0, m.edges[..], e)
    requires 0 <= e < FvCount(nverts)
    modifies m.edges
    ensures AdjDone(nverts, O, E0, m.edges[..], e + 1)
  {
    InputOkNonNegative(nverts, verts);
    CornerAt(nverts, verts, O, L, E0, m.faces[..], FaceOf(nverts, e), CornerOf(nverts, e));
    AdjDoneLinks(nverts, O, E0, m.edges[..], e);
    if m.edges[e].subFace != -1 {
      AssignSubfaceAdjacency(m, nverts, verts, O, L, E0, e);
    } else {
      ghost var E := m.edges[..];
      var adj := AcrossLink(m, nverts, verts, O, L, E0, e);
      if adj != -1 {
        m.edges[e] := m.edges[e].(adjacent := adj);
      }
      QuadStep(nverts, O, E0, E, m.edges[..], e);
    }
  }

  /** The do-while loop over the ring of input face f, from its first edge round to it. */
  method ResolveFace(m: HalfMesh, nverts: seq<int>, ghost verts: seq<int>, ghost O: seq<int>, ghost L: int,
                     ghost E0: seq<Edge>, ghost F: seq<Face>, f: int)
    requires Stage(nverts, verts, O, L, E0, F, |nverts|, 0) && m.faces[..] == F && 0 <= f < |nverts|
    requires AdjDone(nverts, O, E0, m.edges[..], Offset(nverts, f))
    modifies m.edges
    ensures AdjDone(nverts, O, E0, m.edges[..], Offset(nverts, f + 1))
  {
    InputOkNonNegative(nverts, verts);
    var first := m.faces[f].first;
    var e := first;
    ghost var c := 0;
    while true
      invariant 0 <= c < nverts[f] && e == EdgeId(nverts, f, c)
      invariant AdjDone(nverts, O, E0, m.edges[..], e)
      decreases nverts[f] - c
    {
      var next := ResolveStep(m, nverts, verts, O, L, E0, F, f, c, e);
      if next == first {
        assert c + 1 == nverts[f];
        break;
      }
      e, c := next, c + 1;
    }
  }

  /** One corner of the ring walk in the adjacency loop: corner c of face f is resolved and
      the walk moves on to the corner after it. */
  method ResolveStep(m: HalfMesh, nverts: seq<int>, ghost verts: seq<int>, ghost O: seq<int>, ghost L: int,
                     ghost E0: seq<Edge>, ghost F: seq<Face>, ghost f: int, ghost c: int, e: int)
    returns (next: int)
    requires Stage(nverts, verts, O, L, E0, F, |nverts|, 0) && m.faces[..] == F
    requires 0 <= f < |nverts| && 0 <= c < nverts[f] && e == EdgeId(nverts, f, c)
    requires AdjDone(nverts, O, E0, m.edges[..], e)
    modifies m.edges
    ensures AdjDone(nverts, O, E0, m.edges[..], e + 1)
    ensures next == EdgeId(nverts, f, Succ(nverts[f], c))
  {
    InputOkNonNegative(nverts, verts);
    CornerAt(nverts, verts, O, L, E0, F, f, c);
    ResolveCorner(m, nverts, verts, O, L, E0, e);
    AdjDoneLinks(nverts, O, E0, m.edges[..], e + 1);
    next := m.edges[e].next;
  }

  /** The second loop of subdiv_mesh: every input face's ring is visited in face order,
      and afterwards every edge has the adjacent link AdjOf gives it. */
  method ResolveAdjacency(m: HalfMesh, nverts: seq<int>, ghost verts: seq<int>, ghost O: seq<int>, ghost L: int)
    requires Stage(nverts, verts, O, L, m.edges[..], m.faces[..], |nverts|, 0)
    modifies m.edges
    ensures m.edges[..] == Resolved(nverts, O, old(m.edges[..]))
  {
    ghost var E0, F := m.edges[..], m.faces[..];
    var f := 0;
    while f < |nverts|
      invariant 0 <= f <= |nverts|
      invariant AdjDone(nverts, O, E0, m.edges[..], Offset(nverts, f))
    {
      ResolveFace(m, nverts, verts, O, L, E0, F, f);
      f := f + 1;
    }
    AllResolved(nverts, O, E0, m.edges[..]);
  }

  /** Once every corner has been visited, each edge holds its resolved adjacent link. */
  lemma AllResolved(nverts: seq<int>, O: seq<int>, E0: seq<Edge>, E: seq<Edge>)
    requires Opposites(nverts, O) && |E0| == TotalEdges(nverts)
    requires AdjDone(nverts, O, E0, E, Offset(nverts, |nverts|))
    ensures E == Resolved(nverts, O, E0)
  {
    forall y | 0 <= y < |E|
      ensures E[y] == Resolved(nverts, O, E0)[y]
    {
      assert Owner(nverts, y) < FvCount(nverts);
    }
  }
}
