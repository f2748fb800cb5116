/** Where build_mesh puts things: the fixed arena layout of the subdivided mesh, the
    directed pairs of the input faces, and the numbering of the vertices the subdivision
    creates.

    Input face f with nv corners owns the edges Offset(f)..Offset(f)+nv-1, one per corner
    in input order.  When nv != 4 its corners get one quad subface each, allocated while
    walking the ring from corner 1 round to corner 0, so corner j lands in slot Pred(nv, j)
    of the face's block of subfaces.  Face records of subfaces follow the input faces, and
    their edges follow the input corners, four per subface. */
module Layout {
  import opened Counts
  import opened HalfEdge
  import opened Pairing

  /** What build_mesh needs of its input: no empty face, and exactly as many vertex
      indices as corners. */
  predicate InputOk(nverts: seq<int>, verts: seq<int>)
  {
    (forall f | 0 <= f < |nverts| :: nverts[f] >= 1) && |verts| == FvCount(nverts)
  }

  lemma InputOkNonNegative(nverts: seq<int>, verts: seq<int>)
    requires InputOk(nverts, verts)
    ensures NonNegative(nverts)
  {
  }

  /** The edge of corner j of input face f. */
  function EdgeId(nverts: seq<int>, f: int, j: int): int
    requires 0 <= f < |nverts|
  {
    Offset(nverts, f) + j
  }

  /** The input face owning corner x of the flattened vertex list, searching from face f. */
  function FaceFrom(nverts: seq<int>, x: int, f: nat): (g: int)
    requires NonNegative(nverts) && f <= |nverts| && Offset(nverts, f) <= x < FvCount(nverts)
    ensures f <= g < |nverts| && Offset(nverts, g) <= x < Offset(nverts, g + 1)
    decreases |nverts| - f
  {
    if f == |nverts| then assert false; f
    else if x < Offset(nverts, f + 1) then f
    else FaceFrom(nverts, x, f + 1)
  }

  /** The input face owning corner x. */
  function FaceOf(nverts: seq<int>, x: int): (g: int)
    requires NonNegative(nverts) && 0 <= x < FvCount(nverts)
    ensures 0 <= g < |nverts| && Offset(nverts, g) <= x < Offset(nverts, g + 1)
  {
    FaceFrom(nverts, x, 0)
  }

  /** A corner lies in exactly one face. */
  lemma FaceOfUnique(nverts: seq<int>, g: int, x: int)
    requires NonNegative(nverts) && 0 <= g < |nverts|
    requires Offset(nverts, g) <= x < Offset(nverts, g + 1)
    ensures x < FvCount(nverts) && FaceOf(nverts, x) == g
  {
    OffsetMono(nverts, g + 1, |nverts|);
    var r := FaceOf(nverts, x);
    if r < g {
      OffsetMono(nverts, r + 1, g);
    } else if r > g {
      OffsetMono(nverts, g + 1, r);
    }
  }

  lemma EdgeIdFace(nverts: seq<int>, f: int, j: int)
    requires NonNegative(nverts) && 0 <= f < |nverts| && 0 <= j < nverts[f]
    ensures 0 <= EdgeId(nverts, f, j) < FvCount(nverts)
    ensures FaceOf(nverts, EdgeId(nverts, f, j)) == f
  {
    FaceOfUnique(nverts, f, EdgeId(nverts, f, j));
  }

  /** The corners of a face come before those of every later face. */
  lemma EdgeIdBelow(nverts: seq<int>, f: int, j: int, g: int)
    requires NonNegative(nverts) && 0 <= f < g <= |nverts| && 0 <= j < nverts[f]
    ensures 0 <= EdgeId(nverts, f, j) < Offset(nverts, g)
  {
    OffsetMono(nverts, f + 1, g);
  }

  /** Corner number of corner x within its face. */
  function CornerOf(nverts: seq<int>, x: int): (j: int)
    requires NonNegative(nverts) && 0 <= x < FvCount(nverts)
    ensures 0 <= j < nverts[FaceOf(nverts, x)] && x == EdgeId(nverts, FaceOf(nverts, x), j)
  {
    x - Offset(nverts, FaceOf(nverts, x))
  }

  /** The corner after x in its face's ring. */
  function NextCorner(nverts: seq<int>, x: int): (y: int)
    requires NonNegative(nverts) && 0 <= x < FvCount(nverts)
    ensures 0 <= y < FvCount(nverts) && FaceOf(nverts, y) == FaceOf(nverts, x)
  {
    var f := FaceOf(nverts, x);
    EdgeIdFace(nverts, f, Succ(nverts[f], CornerOf(nverts, x)));
    EdgeId(nverts, f, Succ(nverts[f], CornerOf(nverts, x)))
  }

  /** The corner before x in its face's ring. */
  function PrevCorner(nverts: seq<int>, x: int): (y: int)
    requires NonNegative(nverts) && 0 <= x < FvCount(nverts)
    ensures 0 <= y < FvCount(nverts) && FaceOf(nverts, y) == FaceOf(nverts, x)
  {
    var f := FaceOf(nverts, x);
    EdgeIdFace(nverts, f, Pred(nverts[f], CornerOf(nverts, x)));
    EdgeId(nverts, f, Pred(nverts[f], CornerOf(nverts, x)))
  }

  /** The directed pair (v, w) of every corner: its vertex and the next corner's vertex,
      in corner order; this is what the input faces enter into the edge map. */
  function InPairs(nverts: seq<int>, verts: seq<int>): (P: seq<Pair>)
    requires InputOk(nverts, verts)
    ensures |P| == FvCount(nverts)
    ensures forall x | 0 <= x < |P| :: P[x] == (verts[x], verts[NextCorner(nverts, x)])
  {
    seq(FvCount(nverts), x requires 0 <= x < FvCount(nverts) && InputOk(nverts, verts) =>
      (verts[x], verts[NextCorner(nverts, x)]))
  }

  /** The opposite links the input faces get from the edge map. */
  function InOpps(nverts: seq<int>, verts: seq<int>): (O: seq<int>)
    requires InputOk(nverts, verts)
    ensures |O| == FvCount(nverts)
    ensures forall x | 0 <= x < |O| :: -1 <= O[x] < |O| && O[x] != x
  {
    RunSound(InPairs(nverts, verts));
    Run(InPairs(nverts, verts)).opp
  }

  /** Whether input face f is kept as a quad rather than split. */
  predicate Quad(nverts: seq<int>, f: int)
    requires 0 <= f < |nverts|
  {
    nverts[f] == 4
  }

  /** The face record of the subface of corner j of face f. */
  function SubfaceId(nverts: seq<int>, f: int, j: int): int
    requires 0 <= f < |nverts|
  {
    |nverts| + SubBefore(nverts, f) + Pred(nverts[f], j)
  }

  /** Edge k (0..3) of the subface of corner j of face f. */
  function SubEdge(nverts: seq<int>, f: int, j: int, k: int): int
    requires 0 <= f < |nverts|
  {
    FvCount(nverts) + 4 * (SubBefore(nverts, f) + Pred(nverts[f], j)) + k
  }

  /** The ptex index of the subface of corner j of face f. */
  function SubPtex(nverts: seq<int>, f: int, j: int): int
    requires 0 <= f < |nverts|
  {
    PtexBefore(nverts, f) + Pred(nverts[f], j)
  }

  /** The subfaces and their edges fit in the arenas count_mesh_elems sizes. */
  lemma SubLayoutFits(nverts: seq<int>, f: int, j: int)
    requires NonNegative(nverts) && 0 <= f < |nverts| && !Quad(nverts, f) && 0 <= j < nverts[f]
    ensures |nverts| <= SubfaceId(nverts, f, j) < TotalFaces(nverts)
    ensures FvCount(nverts) <= SubEdge(nverts, f, j, 0) && SubEdge(nverts, f, j, 3) < TotalEdges(nverts)
    ensures PtexBefore(nverts, f) <= SubPtex(nverts, f, j) < PtexBefore(nverts, f + 1)
  {
    SubBeforeMono(nverts, f + 1, |nverts|);
    SubBeforeMono(nverts, 0, f);
    assert SubBefore(nverts, f + 1) == SubBefore(nverts, f) + nverts[f];
    assert PtexBefore(nverts, f + 1) == PtexBefore(nverts, f) + nverts[f];
    FacesSplit(nverts, |nverts|);
    EdgesSplit(nverts, |nverts|);
  }

  /* The numbering of the vertices created by the subdivision.

     subdiv_mesh takes new vertex numbers from a counter that starts one past the
     largest input vertex.  For each face that is split it first takes the centre, then
     the midpoint of each corner's edge in corner order 0, 1, .., nv-1, except that a
     midpoint is taken over from the neighbour across the edge when that neighbour's
     subface already exists at that moment.  O is the opposite links of the corners. */

  predicate Opposites(nverts: seq<int>, O: seq<int>)
  {
    NonNegative(nverts) && |O| == FvCount(nverts) && forall x | 0 <= x < |O| :: -1 <= O[x] < |O|
  }

  /** When the midpoint of corner y is chosen, corner x already has its subface: its face
      is split and came earlier, or it is an earlier corner other than corner 0 of the
      same face (corner 0's subface is made last). */
  predicate SubDone(nverts: seq<int>, x: int, y: int)
    requires NonNegative(nverts) && 0 <= x < FvCount(nverts) && 0 <= y < FvCount(nverts)
  {
    var g := FaceOf(nverts, x);
    !Quad(nverts, g) &&
    (g < FaceOf(nverts, y) || (g == FaceOf(nverts, y) && 1 <= CornerOf(nverts, x) < CornerOf(nverts, y)))
  }

  lemma SubDoneBefore(nverts: seq<int>, x: int, y: int)
    requires NonNegative(nverts) && 0 <= x < FvCount(nverts) && 0 <= y < FvCount(nverts)
    requires SubDone(nverts, x, y)
    ensures x < y
  {
    var g, h := FaceOf(nverts, x), FaceOf(nverts, y);
    if g < h {
      OffsetMono(nverts, g + 1, h);
    }
  }

  /** Corner y takes over the midpoint of its opposite. */
  predicate Shared(nverts: seq<int>, O: seq<int>, y: int)
    requires Opposites(nverts, O) && 0 <= y < |O|
  {
    O[y] != -1 && SubDone(nverts, O[y], y)
  }

  /** Midpoints face f takes fresh for its corners 0..j-1. */
  function FreshIn(nverts: seq<int>, O: seq<int>, f: int, j: int): (n: int)
    requires Opposites(nverts, O) && 0 <= f < |nverts| && 0 <= j <= nverts[f]
    ensures 0 <= n <= j
  {
    if j == 0 then 0
    else
      EdgeIdFace(nverts, f, j - 1);
      FreshIn(nverts, O, f, j - 1) + if Shared(nverts, O, EdgeId(nverts, f, j - 1)) then 0 else 1
  }

  /** New vertices a split face takes: its centre and its fresh midpoints. */
  function FreshOf(nverts: seq<int>, O: seq<int>, f: int): int
    requires Opposites(nverts, O) && 0 <= f < |nverts|
  {
    if Quad(nverts, f) then 0 else 1 + FreshIn(nverts, O, f, nverts[f])
  }

  /** The counter when face f is reached; L is the largest input vertex. */
  function VStart(nverts: seq<int>, O: seq<int>, L: int, f: int): (v: int)
    requires Opposites(nverts, O) && 0 <= f <= |nverts|
    ensures v > L
  {
    if f == 0 then L + 1 else VStart(nverts, O, L, f - 1) + FreshOf(nverts, O, f - 1)
  }

  /** The centre vertex of split face f. */
  function Center(nverts: seq<int>, O: seq<int>, L: int, f: int): int
    requires Opposites(nverts, O) && 0 <= f < |nverts|
  {
    VStart(nverts, O, L, f)
  }

  /** The counter when the midpoint of corner x is chosen. */
  function VAt(nverts: seq<int>, O: seq<int>, L: int, x: int): int
    requires Opposites(nverts, O) && 0 <= x < FvCount(nverts)
  {
    var f := FaceOf(nverts, x);
    VStart(nverts, O, L, f) + 1 + FreshIn(nverts, O, f, CornerOf(nverts, x))
  }

  /** The midpoint vertex of the edge of corner x. */
  function Mid(nverts: seq<int>, O: seq<int>, L: int, x: int): (m: int)
    requires Opposites(nverts, O) && 0 <= x < FvCount(nverts)
    ensures m > L
    decreases x
  {
    if Shared(nverts, O, x) then
      SubDoneBefore(nverts, O[x], x);
      Mid(nverts, O, L, O[x])
    else VAt(nverts, O, L, x)
  }

  /** Two split faces sharing an edge share its midpoint: when corners x and y are each
      other's opposite, lie in split faces, and are in different faces or are both other
      than corner 0 of one face, the later of the two reuses the earlier one's midpoint.
      A corner 0 opposite another corner of its own face is the exception: its subface is
      made last, so both corners take a fresh midpoint. */
  lemma MidShared(nverts: seq<int>, O: seq<int>, L: int, x: int, y: int)
    requires Opposites(nverts, O) && 0 <= x < FvCount(nverts) && 0 <= y < FvCount(nverts)
    requires O[x] == y && O[y] == x
    requires !Quad(nverts, FaceOf(nverts, x)) && !Quad(nverts, FaceOf(nverts, y))
    requires FaceOf(nverts, x) != FaceOf(nverts, y) || (CornerOf(nverts, x) != 0 && CornerOf(nverts, y) != 0)
    ensures Mid(nverts, O, L, x) == Mid(nverts, O, L, y)
  {
    if x != y {
      if FaceOf(nverts, x) < FaceOf(nverts, y) ||
         (FaceOf(nverts, x) == FaceOf(nverts, y) && CornerOf(nverts, x) < CornerOf(nverts, y)) {
        assert Shared(nverts, O, y);
      } else {
        assert Shared(nverts, O, x);
      }
    }
  }

  /** The exception to MidShared: corner 0 of a split face opposite another corner of the
      same face gets a midpoint of its own, distinct from that corner's. */
  lemma MidCornerZeroApart(nverts: seq<int>, O: seq<int>, L: int, x: int, y: int)
    requires Opposites(nverts, O) && 0 <= x < FvCount(nverts) && 0 <= y < FvCount(nverts)
    requires O[x] == y && O[y] == x && x != y
    requires !Quad(nverts, FaceOf(nverts, x)) && FaceOf(nverts, x) == FaceOf(nverts, y) && CornerOf(nverts, x) == 0
    ensures Mid(nverts, O, L, x) < Mid(nverts, O, L, y)
  {
    assert !Shared(nverts, O, x) && !Shared(nverts, O, y);
    FreshIncrease(nverts, O, L, x, y);
  }

  /** Vertex k of the subface of corner x: the corner's own vertex, its midpoint, the
      face's centre, and the midpoint of the corner before. */
  function SubVert(nverts: seq<int>, verts: seq<int>, O: seq<int>, L: int, x: int, k: int): int
    requires InputOk(nverts, verts) && Opposites(nverts, O) && 0 <= x < FvCount(nverts)
  {
    if k == 0 then verts[x]
    else if k == 1 then Mid(nverts, O, L, x)
    else if k == 2 then Center(nverts, O, L, FaceOf(nverts, x))
    else Mid(nverts, O, L, PrevCorner(nverts, x))
  }

  lemma {:induction false} FreshInMono(nverts: seq<int>, O: seq<int>, f: int, a: int, b: int)
    requires Opposites(nverts, O) && 0 <= f < |nverts| && 0 <= a <= b <= nverts[f]
    ensures FreshIn(nverts, O, f, a) <= FreshIn(nverts, O, f, b)
    decreases b - a
  {
    if a < b {
      FreshInMono(nverts, O, f, a, b - 1);
    }
  }

  lemma {:induction false} VStartMono(nverts: seq<int>, O: seq<int>, L: int, f: int, g: int)
    requires Opposites(nverts, O) && 0 <= f <= g <= |nverts|
    ensures VStart(nverts, O, L, f) <= VStart(nverts, O, L, g)
    decreases g - f
  {
    if f < g {
      VStartMono(nverts, O, L, f, g - 1);
    }
  }

  /** Fresh numbers strictly increase: the midpoint corner x of a split face takes fresh
      comes after its face's centre, before the number of every later corner, and before
      the centre of every later face. */
  lemma FreshIncrease(nverts: seq<int>, O: seq<int>, L: int, x: int, y: int)
    requires Opposites(nverts, O) && 0 <= x < y < FvCount(nverts)
    requires !Quad(nverts, FaceOf(nverts, x)) && !Shared(nverts, O, x)
    ensures Center(nverts, O, L, FaceOf(nverts, x)) < VAt(nverts, O, L, x) < VAt(nverts, O, L, y)
    ensures forall h | FaceOf(nverts, x) < h < |nverts| :: VAt(nverts, O, L, x) < Center(nverts, O, L, h)
  {
    var f, cx := FaceOf(nverts, x), CornerOf(nverts, x);
    var h, cy := FaceOf(nverts, y), CornerOf(nverts, y);
    FreshBelowNext(nverts, O, L, x);
    if h < f {
      OffsetMono(nverts, h + 1, f);
      assert false;
    } else if h == f {
      FreshInMono(nverts, O, f, cx + 1, cy);
    } else {
      VStartMono(nverts, O, L, f + 1, h);
    }
    forall g | f < g < |nverts|
      ensures VAt(nverts, O, L, x) < Center(nverts, O, L, g)
    {
      VStartMono(nverts, O, L, f + 1, g);
    }
  }

  /** A fresh midpoint of split face f lies past its centre and before the next face's
      vertices. */
  lemma FreshBelowNext(nverts: seq<int>, O: seq<int>, L: int, x: int)
    requires Opposites(nverts, O) && 0 <= x < FvCount(nverts)
    requires !Quad(nverts, FaceOf(nverts, x)) && !Shared(nverts, O, x)
    ensures FaceOf(nverts, x) + 1 <= |nverts|
    ensures Center(nverts, O, L, FaceOf(nverts, x)) < VAt(nverts, O, L, x) < VStart(nverts, O, L, FaceOf(nverts, x) + 1)
  {
    var f, cx := FaceOf(nverts, x), CornerOf(nverts, x);
    assert FreshIn(nverts, O, f, cx + 1) == FreshIn(nverts, O, f, cx) + 1;
    FreshInMono(nverts, O, f, cx + 1, nverts[f]);
  }

  /** Every split face takes a centre of its own: the centres of split faces increase. */
  lemma CenterIncrease(nverts: seq<int>, O: seq<int>, L: int, g: int, h: int)
    requires Opposites(nverts, O) && 0 <= g < h < |nverts| && !Quad(nverts, g)
    ensures Center(nverts, O, L, g) < Center(nverts, O, L, h)
  {
    VStartMono(nverts, O, L, g + 1, h);
  }
}
