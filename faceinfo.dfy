/** The per-quad records of a ptex file: fill_faceinfos and write_data read them off the
    resolved mesh, compute_adjacency runs the whole engine, and ptex_topology_match
    compares two arrays of records. */
module FaceInfos {
  import opened Counts
  import opened HalfEdge
  import opened Pairing
  import opened Builder
  import opened Layout
  import opened Subdiv
  import opened Adjacency
  import opened Mesh

  /** A face's record: for each of its four edges, the ptex index of the face across it
      (-1 for none) and the edge of that face it meets, and whether it is a subface. */
  datatype FaceInfo = FaceInfo(adjfaces: seq<int>, adjedges: seq<int>, isSubface: bool)

  /** The fixed-size arrays of a record hold four entries each. */
  predicate Sized(info: FaceInfo)
  {
    |info.adjfaces| == 4 && |info.adjedges| == 4
  }

  /** The links the record of a ptex face is read through lie within the arenas, every
      adjacent edge belongs to a face, and every ptex face has a first edge. */
  predicate Emittable(E: seq<Edge>, F: seq<Face>)
  {
    Links(E, F) &&
    (forall x | 0 <= x < |E| :: 0 <= E[x].next && (E[x].adjacent != -1 ==> E[E[x].adjacent].face != -1)) &&
    (forall f | 0 <= f < |F| && F[f].ptexIndex >= 0 :: 0 <= F[f].first < |E|)
  }

  /** The record of ptex face f: adjacent_face and adjacent_edge of its first edge and the
      three that follow it, and its subface flag. */
  function InfoOf(E: seq<Edge>, F: seq<Face>, f: int): (info: FaceInfo)
    requires Emittable(E, F) && 0 <= f < |F| && F[f].ptexIndex >= 0
    ensures Sized(info) && info.isSubface == F[f].isSubface
  {
    var e1 := F[f].first;
    var e2 := E[e1].next;
    var e3 := E[e2].next;
    var e4 := E[e3].next;
    FaceInfo([AdjacentFace(E, F, e1), AdjacentFace(E, F, e2), AdjacentFace(E, F, e3), AdjacentFace(E, F, e4)],
             [AdjacentEdge(E, e1), AdjacentEdge(E, e2), AdjacentEdge(E, e3), AdjacentEdge(E, e4)],
             F[f].isSubface)
  }

  /** The ptex faces among the first n face records, in arena order. */
  function PtexFacesIn(F: seq<Face>, n: int): (fs: seq<int>)
    requires 0 <= n <= |F|
    ensures forall i | 0 <= i < |fs| :: 0 <= fs[i] < n && F[fs[i]].ptexIndex >= 0
    ensures forall i, k | 0 <= i < k < |fs| :: fs[i] < fs[k]
    ensures forall f | 0 <= f < n && F[f].ptexIndex >= 0 :: f in fs
  {
    if n == 0 then []
    else PtexFacesIn(F, n - 1) + if F[n - 1].ptexIndex >= 0 then [n - 1] else []
  }

  /** The records of faces fs, each with the ptex index it is written at. */
  function Records(E: seq<Edge>, F: seq<Face>, fs: seq<int>): (r: seq<(int, FaceInfo)>)
    requires Emittable(E, F) && forall i | 0 <= i < |fs| :: 0 <= fs[i] < |F| && F[fs[i]].ptexIndex >= 0
    ensures |r| == |fs| && forall i | 0 <= i < |fs| :: r[i] == (F[fs[i]].ptexIndex, InfoOf(E, F, fs[i]))
  {
    seq(|fs|, i requires 0 <= i < |fs| && Emittable(E, F) && 0 <= fs[i] < |F| && F[fs[i]].ptexIndex >= 0 =>
      (F[fs[i]].ptexIndex, InfoOf(E, F, fs[i])))
  }

  /** write_data: one writeConstantFace call per face record with a ptex index, in arena
      order, given here as the sequence of (ptex index, record) pairs written. */
  method WriteData(m: HalfMesh) returns (written: seq<(int, FaceInfo)>)
    requires Emittable(m.edges[..], m.faces[..])
    ensures written == Records(m.edges[..], m.faces[..], PtexFacesIn(m.faces[..], m.faces.Length))
  {
    var E, F := m.edges[..], m.faces[..];
    written := [];
    var f := 0;
    while f < |F|
      invariant 0 <= f <= |F|
      invariant written == Records(E, F, PtexFacesIn(F, f))
    {
      written := WriteFace(E, F, f, written);
      f := f + 1;
    }
  }

  /** One round of write_data: face f's record is written when f has a ptex index. */
  method WriteFace(E: seq<Edge>, F: seq<Face>, f: int, written: seq<(int, FaceInfo)>)
    returns (written': seq<(int, FaceInfo)>)
    requires Emittable(E, F) && 0 <= f < |F| && written == Records(E, F, PtexFacesIn(F, f))
    ensures written' == Records(E, F, PtexFacesIn(F, f + 1))
  {
    RecordsStep(E, F, f, written);
    written' := written;
    if F[f].ptexIndex >= 0 {
      written' := written + [(F[f].ptexIndex, InfoOf(E, F, f))];
    }
  }

  /** One more face record: a ptex face adds its record at the end, any other adds nothing. */
  lemma RecordsStep(E: seq<Edge>, F: seq<Face>, f: int, written: seq<(int, FaceInfo)>)
    requires Emittable(E, F) && 0 <= f < |F| && written == Records(E, F, PtexFacesIn(F, f))
    ensures F[f].ptexIndex >= 0 ==>
      written + [(F[f].ptexIndex, InfoOf(E, F, f))] == Records(E, F, PtexFacesIn(F, f + 1))
    ensures F[f].ptexIndex < 0 ==> written == Records(E, F, PtexFacesIn(F, f + 1))
  {
    var fs := PtexFacesIn(F, f);
    if F[f].ptexIndex >= 0 {
      var fs' := PtexFacesIn(F, f + 1);
      assert fs' == fs + [f];
      var r := Records(E, F, fs');
      assert |r| == |written| + 1;
      forall i | 0 <= i < |r|
        ensures r[i] == (written + [(F[f].ptexIndex, InfoOf(E, F, f))])[i]
      {
        assert fs'[i] == if i < |fs| then fs[i] else f;
      }
    } else {
      assert PtexFacesIn(F, f + 1) == fs;
    }
  }

  /** The output array after fill_faceinfos has visited the first n face records: each
      face with a ptex index overwrites that slot with its record. */
  function Filled(E: seq<Edge>, F: seq<Face>, o: seq<FaceInfo>, n: int): (r: seq<FaceInfo>)
    requires Emittable(E, F) && 0 <= n <= |F| && forall f | 0 <= f < |F| :: F[f].ptexIndex < |o|
    ensures |r| == |o|
  {
    if n == 0 then o
    else
      var r := Filled(E, F, o, n - 1);
      if F[n - 1].ptexIndex >= 0 then r[F[n - 1].ptexIndex := InfoOf(E, F, n - 1)] else r
  }

  /** Last writer wins: a slot holds the record of the last face before n with that ptex
      index, and a slot no face before n has keeps its old value. */
  lemma {:induction false} FilledSlots(E: seq<Edge>, F: seq<Face>, o: seq<FaceInfo>, n: int)
    requires Emittable(E, F) && 0 <= n <= |F| && forall f | 0 <= f < |F| :: F[f].ptexIndex < |o|
    ensures forall f | 0 <= f < n && F[f].ptexIndex >= 0 && LastWith(F, f, n) :: Filled(E, F, o, n)[F[f].ptexIndex] == InfoOf(E, F, f)
    ensures forall p | 0 <= p < |o| && Unused(F, p, n) :: Filled(E, F, o, n)[p] == o[p]
  {
    if n > 0 {
      FilledSlots(E, F, o, n - 1);
      forall f | 0 <= f < n && F[f].ptexIndex >= 0 && LastWith(F, f, n)
        ensures Filled(E, F, o, n)[F[f].ptexIndex] == InfoOf(E, F, f)
      {
        if f < n - 1 {
          assert LastWith(F, f, n - 1);
        }
      }
      forall p | 0 <= p < |o| && Unused(F, p, n)
        ensures Filled(E, F, o, n)[p] == o[p]
      {
        assert Unused(F, p, n - 1);
      }
    }
  }

  /** No face record after f and before n has f's ptex index. */
  predicate LastWith(F: seq<Face>, f: int, n: int)
    requires 0 <= f < n <= |F|
  {
    forall g | f < g < n :: F[g].ptexIndex != F[f].ptexIndex
  }

  /** No face record before n has ptex index p. */
  predicate Unused(F: seq<Face>, p: int, n: int)
    requires 0 <= n <= |F|
  {
    forall g | 0 <= g < n :: F[g].ptexIndex != p
  }

  /** fill_faceinfos: the record of every face with a ptex index is stored at that index. */
  method FillFaceInfos(m: HalfMesh, out: array<FaceInfo>)
    requires Emittable(m.edges[..], m.faces[..])
    requires forall f | 0 <= f < m.faces.Length :: m.faces[f].ptexIndex < out.Length
    modifies out
    ensures out[..] == Filled(m.edges[..], m.faces[..], old(out[..]), m.faces.Length)
  {
    var f := 0;
    while f < m.faces.Length
      invariant 0 <= f <= m.faces.Length
      invariant out[..] == Filled(m.edges[..], m.faces[..], old(out[..]), f)
    {
      var face := m.faces[f];
      if face.ptexIndex >= 0 {
        var e1 := face.first;
        var e2 := m.edges[e1].next;
        var e3 := m.edges[e2].next;
        var e4 := m.edges[e3].next;
        var adjfaces := [AdjacentFace(m.edges[..], m.faces[..], e1), AdjacentFace(m.edges[..], m.faces[..], e2),
                         AdjacentFace(m.edges[..], m.faces[..], e3), AdjacentFace(m.edges[..], m.faces[..], e4)];
        var adjedges := [AdjacentEdge(m.edges[..], e1), AdjacentEdge(m.edges[..], e2),
                         AdjacentEdge(m.edges[..], e3), AdjacentEdge(m.edges[..], e4)];
        out[face.ptexIndex] := FaceInfo(adjfaces, adjedges, face.isSubface);
      }
      f := f + 1;
    }
  }

  /** Every adjacent link the adjacency loop sets lies within the edge arena. */
  lemma AdjOfRange(nverts: seq<int>, O: seq<int>, E0: seq<Edge>, y: int)
    requires Opposites(nverts, O) && |E0| == TotalEdges(nverts) && 0 <= y < |E0|
    requires -1 <= E0[y].opposite < |E0|
    ensures -1 <= AdjOf(nverts, O, E0, y) < |E0|
  {
    EdgesSplit(nverts, |nverts|);
    var x := Owner(nverts, y);
    var z := if y < FvCount(nverts) then y else x;
    if O[z] != -1 {
      var h := FaceOf(nverts, O[z]);
      if !Quad(nverts, h) {
        SuccPred(nverts[h], CornerOf(nverts, O[z]));
        SubLayoutFits(nverts, h, Succ(nverts[h], CornerOf(nverts, O[z])));
      }
    }
    var p := O[PrevCorner(nverts, x)];
    if p != -1 {
      var h := FaceOf(nverts, p);
      if !Quad(nverts, h) {
        SubLayoutFits(nverts, h, CornerOf(nverts, p));
      }
    }
  }

  /** The mesh build_mesh leaves can be read by fill_faceinfos: all its links are in range. */
  lemma BuiltEmittable(nverts: seq<int>, verts: seq<int>, E0: seq<Edge>, E: seq<Edge>, F: seq<Face>)
    requires Built(nverts, verts, E0, E, F)
    ensures Emittable(E, F)
  {
    var O := InOpps(nverts, verts);
    RunSound(Pairs(E0, |E0|));
    forall y | 0 <= y < |E0|
      ensures -1 <= E[y].adjacent < |E| && E[y].face == E0[y].face && E[y].next == E0[y].next
      ensures E[y].opposite == E0[y].opposite && E[y].prev == E0[y].prev && E[y].subFace == E0[y].subFace
    {
      assert Opps(E0, |E0|)[y] == E0[y].opposite;
      AdjOfRange(nverts, O, E0, y);
    }
  }

  /** Edge t of a subface in the split mesh: its corner number is its position k in the
      subface, its face has a ptex index, and edges 1 and 2 run to or from the new centre
      vertex, which is past every input vertex. */
  lemma SubTarget(nverts: seq<int>, verts: seq<int>, O: seq<int>, L: int, E0: seq<Edge>, F: seq<Face>, t: int)
    requires Stage(nverts, verts, O, L, E0, F, |nverts|, 0) && FvCount(nverts) <= t < |E0|
    ensures E0[t].fv == (t - FvCount(nverts)) % 4
    ensures 0 <= E0[t].face < |F| && F[E0[t].face].ptexIndex >= 0
    ensures var k := (t - FvCount(nverts)) % 4; k == 1 || k == 2 ==> PairAt(E0, t).0 > L || PairAt(E0, t).1 > L
  {
    InputOkNonNegative(nverts, verts);
    OwnedSub(nverts, t);
    var x := Owner(nverts, t);
    var g, j := FaceOf(nverts, x), CornerOf(nverts, x);
    CornerAt(nverts, verts, O, L, E0, F, g, j);
    SubLayoutFits(nverts, g, j);
  }

  /** Both vertices of an input corner's pair are input vertices, at most L. */
  lemma InputPairLow(nverts: seq<int>, verts: seq<int>, O: seq<int>, L: int, E0: seq<Edge>, F: seq<Face>, o: int)
    requires Stage(nverts, verts, O, L, E0, F, |nverts|, 0) && 0 <= o < FvCount(nverts)
    ensures PairAt(E0, o).0 <= L && PairAt(E0, o).1 <= L
  {
    InputOkNonNegative(nverts, verts);
    var g, j := FaceOf(nverts, o), CornerOf(nverts, o);
    CornerAt(nverts, verts, O, L, E0, F, g, j);
    SuccPred(nverts[g], j);
    CornerAt(nverts, verts, O, L, E0, F, g, Succ(nverts[g], j));
  }

  /** A corner of a kept quad: its corner number is below 4 and its face has a ptex index. */
  lemma QuadTarget(nverts: seq<int>, verts: seq<int>, O: seq<int>, L: int, E0: seq<Edge>, F: seq<Face>, o: int)
    requires Stage(nverts, verts, O, L, E0, F, |nverts|, 0) && 0 <= o < FvCount(nverts)
    requires Quad(nverts, FaceOf(nverts, o))
    ensures 0 <= E0[o].fv < 4 && 0 <= E0[o].face < |F| && F[E0[o].face].ptexIndex >= 0
  {
    InputOkNonNegative(nverts, verts);
    var g, j := FaceOf(nverts, o), CornerOf(nverts, o);
    CornerAt(nverts, verts, O, L, E0, F, g, j);
    FacesSplit(nverts, |nverts|);
    PtexOfFace(nverts, verts, O, L, E0, F, g);
  }

  /** Every adjacent link the loop sets lands on an edge whose corner number is below 4 and
      whose face has a ptex index: a kept quad's corner or a subface's edge.  For edges 1
      and 2 of a subface this is because their opposite holds the reversed pair, which
      contains the centre vertex and so is no input corner's. */
  lemma AdjTarget(nverts: seq<int>, verts: seq<int>, O: seq<int>, L: int, E0: seq<Edge>, F: seq<Face>, y: int)
    requires Stage(nverts, verts, O, L, E0, F, |nverts|, 0) && Run(Pairs(E0, |E0|)).opp == Opps(E0, |E0|)
    requires 0 <= y < |E0| && AdjOf(nverts, O, E0, y) != -1
    ensures var a := AdjOf(nverts, O, E0, y);
      0 <= a < |E0| && 0 <= E0[a].fv < 4 && 0 <= E0[a].face < |F| && F[E0[a].face].ptexIndex >= 0
  {
    InputOkNonNegative(nverts, verts);
    EdgesSplit(nverts, |nverts|);
    var a := AdjOf(nverts, O, E0, y);
    var x := Owner(nverts, y);
    var k := (y - FvCount(nverts)) % 4;
    if y >= FvCount(nverts) && (k == 1 || k == 2) {
      RunSound(Pairs(E0, |E0|));
      assert Opps(E0, |E0|)[y] == E0[y].opposite;
      SubTarget(nverts, verts, O, L, E0, F, y);
      if a < FvCount(nverts) {
        InputPairLow(nverts, verts, O, L, E0, F, a);
        assert false;
      }
      SubTarget(nverts, verts, O, L, E0, F, a);
    } else if y < FvCount(nverts) || k == 0 {
      AcrossTarget(nverts, verts, O, L, E0, F, O[if y < FvCount(nverts) then y else x]);
    } else {
      BeforeTarget(nverts, verts, O, L, E0, F, O[PrevCorner(nverts, x)]);
    }
  }

  /** AdjTarget for a link across to corner o. */
  lemma AcrossTarget(nverts: seq<int>, verts: seq<int>, O: seq<int>, L: int, E0: seq<Edge>, F: seq<Face>, o: int)
    requires Stage(nverts, verts, O, L, E0, F, |nverts|, 0) && 0 <= o < FvCount(nverts)
    ensures var a := AcrossEdge(nverts, o);
      0 <= a < |E0| && 0 <= E0[a].fv < 4 && 0 <= E0[a].face < |F| && F[E0[a].face].ptexIndex >= 0
  {
    InputOkNonNegative(nverts, verts);
    EdgesSplit(nverts, |nverts|);
    var h := FaceOf(nverts, o);
    if Quad(nverts, h) {
      QuadTarget(nverts, verts, O, L, E0, F, o);
    } else {
      var j := Succ(nverts[h], CornerOf(nverts, o));
      OwnerOfSub(nverts, h, j, 3);
      SubTarget(nverts, verts, O, L, E0, F, SubEdge(nverts, h, j, 3));
    }
  }

  /** AdjTarget for edge 3 of a subface, whose link goes to the opposite p of the corner
      before. */
  lemma BeforeTarget(nverts: seq<int>, verts: seq<int>, O: seq<int>, L: int, E0: seq<Edge>, F: seq<Face>, p: int)
    requires Stage(nverts, verts, O, L, E0, F, |nverts|, 0) && 0 <= p < FvCount(nverts)
    ensures var h := FaceOf(nverts, p);
      var a := if Quad(nverts, h) then p else SubEdge(nverts, h, CornerOf(nverts, p), 0);
      0 <= a < |E0| && 0 <= E0[a].fv < 4 && 0 <= E0[a].face < |F| && F[E0[a].face].ptexIndex >= 0
  {
    InputOkNonNegative(nverts, verts);
    EdgesSplit(nverts, |nverts|);
    var h := FaceOf(nverts, p);
    if Quad(nverts, h) {
      QuadTarget(nverts, verts, O, L, E0, F, p);
    } else {
      OwnerOfSub(nverts, h, CornerOf(nverts, p), 0);
      SubTarget(nverts, verts, O, L, E0, F, SubEdge(nverts, h, CornerOf(nverts, p), 0));
    }
  }

  /** In a built mesh an edge's adjacent link, when set, lands on an edge with corner
      number below 4 whose face holds a ptex index. */
  lemma LinkTarget(nverts: seq<int>, verts: seq<int>, E0: seq<Edge>, E: seq<Edge>, F: seq<Face>, e: int)
    requires Built(nverts, verts, E0, E, F) && 0 <= e < |E| && E[e].adjacent != -1
    ensures var a := E[e].adjacent;
      0 <= a < |E| && 0 <= E[a].fv < 4 && 0 <= E[a].face < |F| && 0 <= F[E[a].face].ptexIndex < PtexFaces(nverts)
  {
    var O, L := InOpps(nverts, verts), MaxVertex(verts, FvCount(nverts));
    AdjTarget(nverts, verts, O, L, E0, F, e);
    var a := E[e].adjacent;
    assert E[a] == E0[a].(adjacent := AdjOf(nverts, O, E0, a));
    PtexOfFace(nverts, verts, O, L, E0, F, E[a].face);
  }

  /** Every set adjacent link lands on an edge with corner number below 4 whose face holds
      a ptex index. */
  predicate LinksLand(nverts: seq<int>, E: seq<Edge>, F: seq<Face>)
    requires NonNegative(nverts)
  {
    forall e | 0 <= e < |E| && E[e].adjacent != -1 ::
      0 <= E[e].adjacent < |E| && 0 <= E[E[e].adjacent].fv < 4 && 0 <= E[E[e].adjacent].face < |F| &&
      0 <= F[E[E[e].adjacent].face].ptexIndex < PtexFaces(nverts)
  }

  lemma BuiltLinksLand(nverts: seq<int>, verts: seq<int>, E0: seq<Edge>, E: seq<Edge>, F: seq<Face>)
    requires Built(nverts, verts, E0, E, F)
    ensures NonNegative(nverts) && LinksLand(nverts, E, F)
  {
    InputOkNonNegative(nverts, verts);
    forall e | 0 <= e < |E| && E[e].adjacent != -1
      ensures 0 <= E[e].adjacent < |E| && 0 <= E[E[e].adjacent].fv < 4 && 0 <= E[E[e].adjacent].face < |F| &&
        0 <= F[E[E[e].adjacent].face].ptexIndex < PtexFaces(nverts)
    {
      LinkTarget(nverts, verts, E0, E, F, e);
    }
  }

  /** Every record is in range: each adjacent face is a ptex index or -1, and each adjacent
      edge is an edge number 0 .. 3 (0 where there is no neighbour), so it fits the two bits
      per edge the file format keeps. */
  lemma RecordRange(nverts: seq<int>, E: seq<Edge>, F: seq<Face>, f: int)
    requires NonNegative(nverts) && Emittable(E, F) && LinksLand(nverts, E, F)
    requires 0 <= f < |F| && F[f].ptexIndex >= 0
    ensures var info := InfoOf(E, F, f);
      forall i | 0 <= i < 4 ::
        -1 <= info.adjfaces[i] < PtexFaces(nverts) && 0 <= info.adjedges[i] < 4 &&
        (info.adjfaces[i] == -1 ==> info.adjedges[i] == 0)
  {
  }

  /** The ptex numbering PtexNumbering proves of a built mesh: indices below the ptex face
      count, and index p held by face PtexOwner(p) and no other. */
  predicate Numbered(nverts: seq<int>, F: seq<Face>)
  {
    NonNegative(nverts) &&
    (forall f | 0 <= f < |F| :: F[f].ptexIndex < PtexFaces(nverts)) &&
    (forall f | 0 <= f < |F| && F[f].ptexIndex >= 0 :: PtexOwner(nverts, F[f].ptexIndex) == f) &&
    (forall p | 0 <= p < PtexFaces(nverts) :: 0 <= PtexOwner(nverts, p) < |F| && F[PtexOwner(nverts, p)].ptexIndex == p)
  }

  /** With a dense numbering, filling an array of at least PtexFaces records stores the
      record of PtexOwner(p) in every slot p below the count and leaves the rest alone. */
  lemma OwnersFilled(nverts: seq<int>, E: seq<Edge>, F: seq<Face>, o: seq<FaceInfo>)
    requires Emittable(E, F) && Numbered(nverts, F) && |o| >= PtexFaces(nverts)
    ensures forall p | 0 <= p < PtexFaces(nverts) :: Filled(E, F, o, |F|)[p] == InfoOf(E, F, PtexOwner(nverts, p))
    ensures forall p | PtexFaces(nverts) <= p < |o| :: Filled(E, F, o, |F|)[p] == o[p]
  {
    FilledSlots(E, F, o, |F|);
    forall p | 0 <= p < PtexFaces(nverts)
      ensures Filled(E, F, o, |F|)[p] == InfoOf(E, F, PtexOwner(nverts, p))
    {
      assert LastWith(F, PtexOwner(nverts, p), |F|);
    }
    forall p | PtexFaces(nverts) <= p < |o|
      ensures Filled(E, F, o, |F|)[p] == o[p]
    {
      assert Unused(F, p, |F|);
    }
  }

  /** The mesh compute_adjacency builds: arenas sized by count_mesh_elems, then build_mesh. */
  method NewMesh(nverts: seq<int>, verts: seq<int>) returns (m: HalfMesh, ghost E0: seq<Edge>)
    requires InputOk(nverts, verts)
    ensures fresh(m.edges) && fresh(m.faces)
    ensures Built(nverts, verts, E0, m.edges[..], m.faces[..])
    ensures Emittable(m.edges[..], m.faces[..]) && Numbered(nverts, m.faces[..]) && LinksLand(nverts, m.edges[..], m.faces[..])
  {
    InputOkNonNegative(nverts, verts);
    var totalFaces, totalEdges, ptexFaces := CountMeshElems(nverts);
    FacesSplit(nverts, |nverts|);
    EdgesSplit(nverts, |nverts|);
    m := new HalfMesh(totalFaces, totalEdges);
    E0 := BuildMesh(m, nverts, verts);
    BuiltFacts(nverts, verts, E0, m.edges[..], m.faces[..]);
  }

  /** A built mesh can be emitted, numbers its ptex faces in order, and links only to
      ptex faces. */
  lemma BuiltFacts(nverts: seq<int>, verts: seq<int>, E0: seq<Edge>, E: seq<Edge>, F: seq<Face>)
    requires Built(nverts, verts, E0, E, F)
    ensures Emittable(E, F) && Numbered(nverts, F) && LinksLand(nverts, E, F)
  {
    BuiltEmittable(nverts, verts, E0, E, F);
    PtexNumbering(nverts, verts, E0, E, F);
    BuiltLinksLand(nverts, verts, E0, E, F);
  }

  /** compute_adjacency: the mesh is built and the record of every ptex face is stored at
      its ptex index; slot p ends up holding the record of PtexOwner(p), and slots past the
      ptex face count are left alone. */
  method ComputeAdjacency(nverts: seq<int>, verts: seq<int>, out: array<FaceInfo>)
    returns (ghost E0: seq<Edge>, ghost E: seq<Edge>, ghost F: seq<Face>)
    requires InputOk(nverts, verts) && out.Length >= PtexFaces(nverts)
    modifies out
    ensures Built(nverts, verts, E0, E, F) && Emittable(E, F) && Numbered(nverts, F) && LinksLand(nverts, E, F)
    ensures forall p | 0 <= p < PtexFaces(nverts) :: out[p] == InfoOf(E, F, PtexOwner(nverts, p))
    ensures forall p | PtexFaces(nverts) <= p < out.Length :: out[p] == old(out[p])
  {
    var m;
    m, E0 := NewMesh(nverts, verts);
    E, F := m.edges[..], m.faces[..];
    FillOwners(nverts, m, out);
  }

  /** The emitting loop over a numbered mesh: slot p receives the record of PtexOwner(p). */
  method FillOwners(nverts: seq<int>, m: HalfMesh, out: array<FaceInfo>)
    requires Emittable(m.edges[..], m.faces[..]) && Numbered(nverts, m.faces[..]) && out.Length >= PtexFaces(nverts)
    modifies out
    ensures forall p | 0 <= p < PtexFaces(nverts) :: out[p] == InfoOf(m.edges[..], m.faces[..], PtexOwner(nverts, p))
    ensures forall p | PtexFaces(nverts) <= p < out.Length :: out[p] == old(out[p])
  {
    ghost var o := out[..];
    FillFaceInfos(m, out);
    OwnersFilled(nverts, m.edges[..], m.faces[..], o);
  }

  /** Adjacent-face slot x of one file against slot y of the other, each shifted by its
      file's offset: a boundary must meet a boundary, and a neighbour the same neighbour. */
  predicate SlotMatch(x: int, y: int, noffset: int, moffset: int)
  {
    if x == -1 then y == -1 else x + noffset == y + moffset
  }

  /** Two records agree: the same adjacent edges, the same subface flag, and every slot
      matching. */
  predicate FaceMatch(a: FaceInfo, b: FaceInfo, noffset: int, moffset: int)
    requires Sized(a) && Sized(b)
  {
    a.adjedges == b.adjedges && a.isSubface == b.isSubface &&
    forall f | 0 <= f < 4 :: SlotMatch(a.adjfaces[f], b.adjfaces[f], noffset, moffset)
  }

  /** The first n records of the two files agree pairwise. */
  predicate Matches(n: int, nfaces: seq<FaceInfo>, mfaces: seq<FaceInfo>, noffset: int, moffset: int)
    requires n <= |nfaces| && n <= |mfaces| && forall i | 0 <= i < n :: Sized(nfaces[i]) && Sized(mfaces[i])
  {
    forall i | 0 <= i < n :: FaceMatch(nfaces[i], mfaces[i], noffset, moffset)
  }

  /** ptex_topology_match with the boundary test reading the second file's slot. */
  method TopologyMatch(n: int, nfaces: seq<FaceInfo>, mfaces: seq<FaceInfo>, noffset: int, moffset: int)
    returns (ok: bool)
    requires n <= |nfaces| && n <= |mfaces| && forall i | 0 <= i < n :: Sized(nfaces[i]) && Sized(mfaces[i])
    ensures ok == Matches(n, nfaces, mfaces, noffset, moffset)
  {
    var i := 0;
    while i < n
      invariant 0 <= i && (i <= n || i == 0)
      invariant forall k | 0 <= k < i :: FaceMatch(nfaces[k], mfaces[k], noffset, moffset)
    {
      var nface, mface := nfaces[i], mfaces[i];
      if nface.adjedges != mface.adjedges || nface.isSubface != mface.isSubface {
        return false;
      }
      var f := 0;
      while f < 4
        invariant 0 <= f <= 4
        invariant forall g | 0 <= g < f :: SlotMatch(nface.adjfaces[g], mface.adjfaces[g], noffset, moffset)
      {
        if nface.adjfaces[f] == -1 {
          if mface.adjfaces[f] == -1 {
            f := f + 1;
            continue;
          } else {
            return false;
          }
        }
        if nface.adjfaces[f] + noffset != mface.adjfaces[f] + moffset {
          return false;
        }
        f := f + 1;
      }
      i := i + 1;
    }
    return true;
  }

  /** The slot test as written: a boundary in the first file is accepted against anything. */
  predicate SlotMatchAsWritten(x: int, y: int, noffset: int, moffset: int)
  {
    x == -1 || x + noffset == y + moffset
  }

  predicate FaceMatchAsWritten(a: FaceInfo, b: FaceInfo, noffset: int, moffset: int)
    requires Sized(a) && Sized(b)
  {
    a.adjedges == b.adjedges && a.isSubface == b.isSubface &&
    forall f | 0 <= f < 4 :: SlotMatchAsWritten(a.adjfaces[f], b.adjfaces[f], noffset, moffset)
  }

  predicate MatchesAsWritten(n: int, nfaces: seq<FaceInfo>, mfaces: seq<FaceInfo>, noffset: int, moffset: int)
    requires n <= |nfaces| && n <= |mfaces| && forall i | 0 <= i < n :: Sized(nfaces[i]) && Sized(mfaces[i])
  {
    forall i | 0 <= i < n :: FaceMatchAsWritten(nfaces[i], mfaces[i], noffset, moffset)
  }

  /** ptex_topology_match as written: inside the test of the first file's slot for -1 the
      same slot is tested again, so the branch that should reject never runs. */
  method TopologyMatchAsWritten(n: int, nfaces: seq<FaceInfo>, mfaces: seq<FaceInfo>, noffset: int, moffset: int)
    returns (ok: bool)
    requires n <= |nfaces| && n <= |mfaces| && forall i | 0 <= i < n :: Sized(nfaces[i]) && Sized(mfaces[i])
    ensures ok == MatchesAsWritten(n, nfaces, mfaces, noffset, moffset)
  {
    var i := 0;
    while i < n
      invariant 0 <= i && (i <= n || i == 0)
      invariant forall k | 0 <= k < i :: FaceMatchAsWritten(nfaces[k], mfaces[k], noffset, moffset)
    {
      var nface, mface := nfaces[i], mfaces[i];
      if nface.adjedges != mface.adjedges || nface.isSubface != mface.isSubface {
        return false;
      }
      var f := 0;
      while f < 4
        invariant 0 <= f <= 4
        invariant forall g | 0 <= g < f :: SlotMatchAsWritten(nface.adjfaces[g], mface.adjfaces[g], noffset, moffset)
      {
        if nface.adjfaces[f] == -1 {
          if nface.adjfaces[f] == -1 {
            f := f + 1;
            continue;
          } else {
            return false;
          }
        }
        if nface.adjfaces[f] + noffset != mface.adjfaces[f] + moffset {
          return false;
        }
        f := f + 1;
      }
      i := i + 1;
    }
    return true;
  }

  /** The as-written test accepts a face on the boundary in one file against the same face
      with a neighbour in the other, which the corrected test rejects. */
  lemma BoundaryMismatchAccepted()
    ensures var a := FaceInfo([-1, -1, -1, -1], [0, 0, 0, 0], false);
      var b := FaceInfo([5, -1, -1, -1], [0, 0, 0, 0], false);
      MatchesAsWritten(1, [a], [b], 0, 0) && !Matches(1, [a], [b], 0, 0)
  {
    var a := FaceInfo([-1, -1, -1, -1], [0, 0, 0, 0], false);
    var b := FaceInfo([5, -1, -1, -1], [0, 0, 0, 0], false);
    assert [a][0] == a && [b][0] == b;
    assert FaceMatchAsWritten(a, b, 0, 0);
    assert !SlotMatch(a.adjfaces[0], b.adjfaces[0], 0, 0);
  }

  /** Every boundary slot of a is a boundary slot of b. */
  predicate BoundaryKept(a: FaceInfo, b: FaceInfo)
    requires Sized(a) && Sized(b)
  {
    forall f | 0 <= f < 4 && a.adjfaces[f] == -1 :: b.adjfaces[f] == -1
  }

  /** The corrected test never accepts more than the as-written one, and both agree
      whenever every boundary of the first file is also a boundary of the second. */
  lemma MatchesRefines(n: int, nfaces: seq<FaceInfo>, mfaces: seq<FaceInfo>, noffset: int, moffset: int)
    requires n <= |nfaces| && n <= |mfaces| && forall i | 0 <= i < n :: Sized(nfaces[i]) && Sized(mfaces[i])
    ensures Matches(n, nfaces, mfaces, noffset, moffset) ==> MatchesAsWritten(n, nfaces, mfaces, noffset, moffset)
    ensures (forall i | 0 <= i < n :: BoundaryKept(nfaces[i], mfaces[i])) ==>
      (Matches(n, nfaces, mfaces, noffset, moffset) <==> MatchesAsWritten(n, nfaces, mfaces, noffset, moffset))
  {
  }

  /** Every file matches itself under equal offsets. */
  lemma MatchesItself(n: int, faces: seq<FaceInfo>, offset: int)
    requires n <= |faces| && forall i | 0 <= i < n :: Sized(faces[i])
    ensures Matches(n, faces, faces, offset, offset)
  {
  }
}
