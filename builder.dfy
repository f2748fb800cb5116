/** The mesh builder: allocating edges and faces from the arenas, linking a face's edges
    into a ring, and pairing opposite edges through the edge map. */
module Builder {
  import opened Pairing
  import opened HalfEdge

  /** The directed pair (v, w) of edge x: its vertex and the vertex of the next edge. */
  function PairAt(E: seq<Edge>, x: int): Pair
    requires 0 <= x < |E|
  {
    var n := E[x].next;
    (E[x].v, if 0 <= n < |E| then E[n].v else -1)
  }

  /** The directed pairs of the first n edges. */
  function Pairs(E: seq<Edge>, n: int): (P: seq<Pair>)
    requires 0 <= n <= |E|
    ensures |P| == n && forall x | 0 <= x < n :: P[x] == PairAt(E, x)
  {
    seq(n, x requires 0 <= x < n && n <= |E| => PairAt(E, x))
  }

  /** The opposite links of the first n edges. */
  function Opps(E: seq<Edge>, n: int): (O: seq<int>)
    requires 0 <= n <= |E|
    ensures |O| == n && forall x | 0 <= x < n :: O[x] == E[x].opposite
  {
    seq(n, x requires 0 <= x < n && n <= |E| => E[x].opposite)
  }

  /** The first n edges have been marked: their opposite links and the edge map are what
      marking them in order produces. */
  predicate Marked(E: seq<Edge>, M: map<Pair, int>, n: int)
  {
    0 <= n <= |E| && Run(Pairs(E, n)) == State(Opps(E, n), M)
  }

  /** An allocated edge that mark_face has not linked yet: only its vertex is set. */
  predicate Unlinked(e: Edge)
  {
    e == FreshEdge.(v := e.v)
  }

  /** The first ne edges and nf faces are in use and linked within those ranges; the rest
      of both arenas is untouched. */
  predicate Linked(E: seq<Edge>, F: seq<Face>, ne: int, nf: int)
    requires 0 <= ne <= |E| && 0 <= nf <= |F|
  {
    (forall x | 0 <= x < ne ::
      0 <= E[x].next < ne && 0 <= E[x].prev < ne && 0 <= E[x].face < nf &&
      -1 <= E[x].subFace < nf && -1 <= E[x].adjacent < ne) &&
    (forall x | ne <= x < |E| :: E[x] == FreshEdge) &&
    (forall f | 0 <= f < nf :: F[f].faceIndex == f && 0 <= F[f].first < ne) &&
    (forall f | nf <= f < |F| :: F[f] == DefaultFace)
  }

  /** The builder state: ne edges and nf faces used, linked, and every used edge marked. */
  predicate Wf(E: seq<Edge>, F: seq<Face>, M: map<Pair, int>, ne: int, nf: int)
  {
    0 <= ne <= |E| && 0 <= nf <= |F| && Linked(E, F, ne, nf) && Marked(E, M, ne)
  }

  lemma RunSnoc(Q: seq<Pair>, p: Pair)
    ensures Indexed(Run(Q)) && Run(Q + [p]) == Step(Run(Q), p)
  {
    assert (Q + [p])[..|Q|] == Q;
  }

  /** Pairs and opposite links of edges whose vertex and next link are unchanged. */
  lemma PairsFrame(E: seq<Edge>, E': seq<Edge>, n: int)
    requires |E| == |E'| && 0 <= n <= |E|
    requires forall x | 0 <= x < n :: E'[x].next == E[x].next && E'[x].v == E[x].v
    requires forall x | 0 <= x < n && 0 <= E[x].next < |E| :: E'[E[x].next].v == E[E[x].next].v
    ensures Pairs(E', n) == Pairs(E, n)
  {
    forall x | 0 <= x < n
      ensures PairAt(E', x) == PairAt(E, x)
    {
    }
  }

  /** Marking edge e when an edge op holding its reversed pair is in the map. */
  lemma MarkMatch(E: seq<Edge>, M: map<Pair, int>, e: int)
    requires Marked(E, M, e) && 0 <= e < |E| && E[e].opposite == -1
    requires Rev(PairAt(E, e)) in M
    ensures 0 <= M[Rev(PairAt(E, e))] < e
    ensures var op := M[Rev(PairAt(E, e))];
      Marked(E[op := E[op].(opposite := e)][e := E[e].(opposite := op)], M, e + 1)
  {
    var p := PairAt(E, e);
    MarkedOpposites(E, M, e);
    var op := M[Rev(p)];
    var E' := E[op := E[op].(opposite := e)][e := E[e].(opposite := op)];
    RunSnoc(Pairs(E, e), p);
    PairsFrame(E, E', e + 1);
    assert Pairs(E, e + 1) == Pairs(E, e) + [p];
    OppsLinked(E, e, op);
    assert Step(State(Opps(E, e), M), p) == State(Opps(E, e)[op := e] + [op], M);
  }

  /** The opposite links of the first e + 1 edges once edges op and e are linked. */
  lemma OppsLinked(E: seq<Edge>, e: int, op: int)
    requires 0 <= op < e < |E|
    ensures Opps(E[op := E[op].(opposite := e)][e := E[e].(opposite := op)], e + 1) == Opps(E, e)[op := e] + [op]
  {
  }

  /** Marking edge e when no edge holding its reversed pair is in the map. */
  lemma MarkNoMatch(E: seq<Edge>, M: map<Pair, int>, e: int)
    requires Marked(E, M, e) && 0 <= e < |E| && E[e].opposite == -1
    requires Rev(PairAt(E, e)) !in M
    ensures var p := PairAt(E, e); Marked(E, if p in M then M else M[p := e], e + 1)
  {
    var p := PairAt(E, e);
    RunSnoc(Pairs(E, e), p);
    assert Pairs(E, e + 1) == Pairs(E, e) + [p];
    assert Opps(E, e + 1) == Opps(E, e) + [-1];
  }

  /** Every opposite link of a marked edge is null or names another marked edge. */
  lemma MarkedOpposites(E: seq<Edge>, M: map<Pair, int>, n: int)
    requires Marked(E, M, n)
    ensures forall x | 0 <= x < n :: -1 <= E[x].opposite < n && E[x].opposite != x
    ensures forall k | k in M :: 0 <= M[k] < n && PairAt(E, M[k]) == k
  {
    var P := Pairs(E, n);
    RunSound(P);
    forall x | 0 <= x < n
      ensures -1 <= E[x].opposite < n && E[x].opposite != x
    {
      assert Opps(E, n)[x] == E[x].opposite;
    }
  }

  /** The effect of mark_opposite on edge e: the edges and the map afterwards.  Marking
      keeps the pairing invariant, touches only opposite links, and changes only e's own
      link and the link of an earlier edge, which then names e. */
  function Marking(E: seq<Edge>, M: map<Pair, int>, e: int): (r: (seq<Edge>, map<Pair, int>))
    requires Marked(E, M, e) && 0 <= e < |E| && E[e].opposite == -1
    ensures |r.0| == |E| && Marked(r.0, r.1, e + 1)
    ensures forall x | 0 <= x < |E| :: r.0[x] == E[x].(opposite := r.0[x].opposite)
    ensures forall x | 0 <= x < |E| && r.0[x].opposite != E[x].opposite ::
              x == e || (x < e && r.0[x].opposite == e && PairAt(E, x) == Rev(PairAt(E, e)))
  {
    MarkedOpposites(E, M, e);
    var p := PairAt(E, e);
    if Rev(p) in M then
      MarkMatch(E, M, e);
      var op := M[Rev(p)];
      (E[op := E[op].(opposite := e)][e := E[e].(opposite := op)], M)
    else
      MarkNoMatch(E, M, e);
      (E, if p in M then M else M[p := e])
  }

  /** Edge x of E0 after mark_face's linking loop has handled the edges first..k-1 of the
      new face: the last edge already points back to the first; each handled edge has its
      face, corner number and prev link, and each handled edge but the newest its next. */
  function LinkedEdge(e0: Edge, x: int, faceId: int, first: int, last: int, k: int): Edge
  {
    if x < first || last <= x then e0
    else
      var e1 := if x == last - 1 then e0.(next := first) else if x < k - 1 then e0.(next := x + 1) else e0;
      if x < k then e1.(face := faceId, fv := x - first, prev := if x == first then last - 1 else x - 1)
      else e1
  }

  function Linking(E0: seq<Edge>, faceId: int, first: int, last: int, k: int): (E: seq<Edge>)
    ensures |E| == |E0| && forall x | 0 <= x < |E0| :: E[x] == LinkedEdge(E0[x], x, faceId, first, last, k)
  {
    seq(|E0|, x requires 0 <= x < |E0| => LinkedEdge(E0[x], x, faceId, first, last, k))
  }

  /** E differs from E1 only in opposite links: those of edges from k on are unchanged, and
      an edge before first only gains a link to one of the edges first..k-1 whose pair is
      the reverse of its own. */
  predicate OppFrame(E1: seq<Edge>, E: seq<Edge>, first: int, k: int)
  {
    |E| == |E1| && 0 <= first <= k <= |E| &&
    forall x {:trigger E[x]} | 0 <= x < |E| ::
      E[x] == E1[x].(opposite := E[x].opposite) &&
      (k <= x ==> E[x].opposite == E1[x].opposite) &&
      (x < first ==> E[x].opposite == E1[x].opposite ||
                     (first <= E[x].opposite < k && PairAt(E1, x) == Rev(PairAt(E1, E[x].opposite))))
  }

  /** The edges base..base+|vs|-1 form the ring of face f with vertices vs in order. */
  predicate RingAdded(E: seq<Edge>, base: int, vs: seq<int>, f: int)
  {
    0 <= base && base + |vs| <= |E| &&
    forall k | base <= k < base + |vs| ::
      E[k] == Edge(f, vs[k - base], k - base, E[k].opposite,
                   base + Succ(|vs|, k - base), base + Pred(|vs|, k - base), -1, -1)
  }

  /** Edges below base only changed their opposite link, and then only to the new edge
      base+i of the face with vertices vs, whose pair (vs[i], vs[i+1]) is the reverse of
      their own. */
  predicate OldEdgesKept(E0: seq<Edge>, E: seq<Edge>, base: int, vs: seq<int>)
  {
    |E| == |E0| && 0 <= base <= |E| &&
    forall x {:trigger E[x]} | 0 <= x < base ::
      E[x] == E0[x].(opposite := E[x].opposite) &&
      (E[x].opposite == E0[x].opposite ||
       (base <= E[x].opposite < base + |vs| &&
        PairAt(E0, x) == (vs[Succ(|vs|, E[x].opposite - base)], vs[E[x].opposite - base])))
  }

  /** What add_face leaves behind, given what mark_face guarantees. */
  lemma AddFaceFacts(E0: seq<Edge>, F0: seq<Face>, M0: map<Pair, int>, ne: int, nf: int,
                     vs: seq<int>, EA: seq<Edge>, E: seq<Edge>, F: seq<Face>, M: map<Pair, int>,
                     top: int, nf1: int)
    requires Wf(E0, F0, M0, ne, nf) && 1 <= |vs| && top == ne + |vs| && top <= |E0| && nf < |F0|
    requires nf1 == nf + 1
    requires EA == Allocated(E0, ne, vs)
    requires Marked(E, M, top)
    requires OppFrame(Linking(EA, nf, ne, top, top), E, ne, top)
    requires F == F0[nf := Face(nf, F0[nf].ptexIndex, false, ne)]
    ensures Wf(E, F, M, top, nf1)
    ensures F == F0[nf := Face(nf, -1, false, ne)]
    ensures RingAdded(E, ne, vs, nf)
    ensures OldEdgesKept(E0, E, ne, vs)
  {
    AllocFacts(E0, EA, M0, ne, nf, F0, vs);
    AddFaceLinked(E0, F0, M0, ne, nf, vs, EA, E, top);
    AddFaceRing(E0, F0, M0, ne, nf, vs, EA, E, top);
    AddFacePairs(E0, F0, M0, ne, nf, vs, EA, E, top);
  }

  lemma AddFaceLinked(E0: seq<Edge>, F0: seq<Face>, M0: map<Pair, int>, ne: int, nf: int,
                      vs: seq<int>, EA: seq<Edge>, E: seq<Edge>, top: int)
    requires Wf(E0, F0, M0, ne, nf) && 1 <= |vs| && ne + |vs| <= |E0| && nf < |F0|
    requires |EA| == |E0|
    requires forall x | 0 <= x < |E0| ::
      EA[x] == (if ne <= x < ne + |vs| then FreshEdge.(v := vs[x - ne]) else E0[x])
    requires top == ne + |vs| && OppFrame(Linking(EA, nf, ne, top, top), E, ne, top)
    ensures forall x | 0 <= x < top ::
      0 <= E[x].next < top && 0 <= E[x].prev < top && 0 <= E[x].face < nf + 1 &&
      -1 <= E[x].subFace < nf + 1 && -1 <= E[x].adjacent < top
    ensures forall x | top <= x < |E| :: E[x] == FreshEdge
  {
    var EL := Linking(EA, nf, ne, top, top);
    forall x | 0 <= x < top
      ensures 0 <= E[x].next < top && 0 <= E[x].prev < top && 0 <= E[x].face < nf + 1 &&
              -1 <= E[x].subFace < nf + 1 && -1 <= E[x].adjacent < top
    {
      assert E[x] == EL[x].(opposite := E[x].opposite);
    }
    forall x | top <= x < |E|
      ensures E[x] == FreshEdge
    {
      assert E[x] == EL[x].(opposite := E[x].opposite);
    }
  }

  lemma AddFaceRing(E0: seq<Edge>, F0: seq<Face>, M0: map<Pair, int>, ne: int, nf: int,
                    vs: seq<int>, EA: seq<Edge>, E: seq<Edge>, top: int)
    requires Wf(E0, F0, M0, ne, nf) && 1 <= |vs| && ne + |vs| <= |E0| && nf < |F0|
    requires |EA| == |E0|
    requires forall x | 0 <= x < |E0| ::
      EA[x] == (if ne <= x < ne + |vs| then FreshEdge.(v := vs[x - ne]) else E0[x])
    requires top == ne + |vs| && OppFrame(Linking(EA, nf, ne, top, top), E, ne, top)
    ensures RingAdded(E, ne, vs, nf)
  {
    var EL := Linking(EA, nf, ne, top, top);
    forall k | ne <= k < top
      ensures E[k] == Edge(nf, vs[k - ne], k - ne, E[k].opposite,
                           ne + Succ(|vs|, k - ne), ne + Pred(|vs|, k - ne), -1, -1)
    {
      assert E[k] == EL[k].(opposite := E[k].opposite);
    }
  }

  lemma AddFacePairs(E0: seq<Edge>, F0: seq<Face>, M0: map<Pair, int>, ne: int, nf: int,
                     vs: seq<int>, EA: seq<Edge>, E: seq<Edge>, top: int)
    requires Wf(E0, F0, M0, ne, nf) && 1 <= |vs| && ne + |vs| <= |E0|
    requires |EA| == |E0|
    requires forall x | 0 <= x < |E0| ::
      EA[x] == (if ne <= x < ne + |vs| then FreshEdge.(v := vs[x - ne]) else E0[x])
    requires top == ne + |vs| && OppFrame(Linking(EA, nf, ne, top, top), E, ne, top)
    ensures OldEdgesKept(E0, E, ne, vs)
  {
    var EL := Linking(EA, nf, ne, top, top);
    forall x | 0 <= x < ne
      ensures E[x] == E0[x].(opposite := E[x].opposite)
      ensures E[x].opposite == E0[x].opposite ||
        (ne <= E[x].opposite < top &&
         PairAt(E0, x) == (vs[Succ(|vs|, E[x].opposite - ne)], vs[E[x].opposite - ne]))
    {
      assert EL[x] == E0[x];
      if E[x].opposite != E0[x].opposite {
        var o := E[x].opposite;
        assert 0 <= E0[x].next < ne && EL[E0[x].next] == E0[E0[x].next];
        assert PairAt(EL, x) == PairAt(E0, x);
        assert EL[o].next == ne + Succ(|vs|, o - ne);
      }
    }
  }

  lemma LinkStart(E0: seq<Edge>, E: seq<Edge>, faceId: int, first: int, last: int)
    requires 0 <= first < last <= |E0|
    requires E == E0[last - 1 := E0[last - 1].(next := first)]
                    [first := E0[last - 1 := E0[last - 1].(next := first)][first].(prev := last - 1, fv := 0, face := faceId)]
    ensures E == Linking(E0, faceId, first, last, first + 1)
  {
  }

  lemma LinkNext(E0: seq<Edge>, E: seq<Edge>, E': seq<Edge>, faceId: int, first: int, last: int, k: int)
    requires 0 <= first < k < last <= |E0|
    requires E == Linking(E0, faceId, first, last, k)
    requires E' == E[k := E[k].(prev := k - 1, fv := k - first, face := faceId)]
                    [k - 1 := E[k := E[k].(prev := k - 1, fv := k - first, face := faceId)][k - 1].(next := k)]
    ensures E' == Linking(E0, faceId, first, last, k + 1)
  {
  }

  /** Linking the ring changes no pair or link of the edges before it, and leaves the
      ring's edges with null opposites and next links inside the ring. */
  lemma LinkedMarked(E0: seq<Edge>, E1: seq<Edge>, M: map<Pair, int>, faceId: int, first: int, last: int)
    requires 0 <= first < last <= |E0| && Marked(E0, M, first)
    requires forall k | first <= k < last :: Unlinked(E0[k])
    requires E1 == Linking(E0, faceId, first, last, last)
    ensures Marked(E1, M, first)
    ensures forall k | first <= k < last :: E1[k].opposite == -1 && first <= E1[k].next < last
  {
    PairsFrame(E0, E1, first);
    assert Opps(E1, first) == Opps(E0, first);
  }

  lemma OppFrameStart(E: seq<Edge>, first: int)
    requires 0 <= first <= |E|
    ensures OppFrame(E, E, first, first)
  {
  }

  lemma OppFrameStep(E1: seq<Edge>, E: seq<Edge>, M: map<Pair, int>, first: int, k: int)
    requires first <= k && OppFrame(E1, E, first, k)
    requires Marked(E, M, k) && 0 <= k < |E| && E[k].opposite == -1
    ensures OppFrame(E1, Marking(E, M, k).0, first, k + 1)
  {
    var E' := Marking(E, M, k).0;
    forall x | 0 <= x < |E|
      ensures PairAt(E, x) == PairAt(E1, x)
    {
      assert E[x] == E1[x].(opposite := E[x].opposite);
      var n := E[x].next;
      if 0 <= n < |E| {
        assert E[n] == E1[n].(opposite := E[n].opposite);
      }
    }
    forall x | 0 <= x < |E|
      ensures E'[x] == E1[x].(opposite := E'[x].opposite)
      ensures k + 1 <= x ==> E'[x].opposite == E1[x].opposite
      ensures x < first ==>
        (E'[x].opposite == E1[x].opposite ||
         (first <= E'[x].opposite < k + 1 && PairAt(E1, x) == Rev(PairAt(E1, E'[x].opposite))))
    {
      assert E'[x] == E[x].(opposite := E'[x].opposite);
    }
  }

  /** The edges after add_edge has been called for each of vs, starting at edge base. */
  function Allocated(E0: seq<Edge>, base: int, vs: seq<int>): (E: seq<Edge>)
    requires 0 <= base && base + |vs| <= |E0|
    ensures |E| == |E0|
    ensures forall x | 0 <= x < |E0| ::
      E[x] == (if base <= x < base + |vs| then E0[x].(v := vs[x - base]) else E0[x])
  {
    seq(|E0|, x requires 0 <= x < |E0| =>
      if base <= x < base + |vs| then E0[x].(v := vs[x - base]) else E0[x])
  }

  /** Allocating fresh edges after the used ones keeps the marked prefix. */
  lemma AllocFacts(E0: seq<Edge>, EA: seq<Edge>, M: map<Pair, int>, ne: int, nf: int,
                   F0: seq<Face>, vs: seq<int>)
    requires Wf(E0, F0, M, ne, nf) && ne + |vs| <= |E0| && EA == Allocated(E0, ne, vs)
    ensures Marked(EA, M, ne)
    ensures forall x | 0 <= x < |E0| ::
      EA[x] == (if ne <= x < ne + |vs| then FreshEdge.(v := vs[x - ne]) else E0[x])
    ensures forall k | ne <= k < ne + |vs| :: Unlinked(EA[k])
  {
    PairsFrame(E0, EA, ne);
    assert Opps(EA, ne) == Opps(E0, ne);
  }

  class MeshBuilder {
    const mesh: HalfMesh
    var edgeMap: map<Pair, int>
    var nextEdge: int
    var nextFace: int

    constructor (m: HalfMesh)
      ensures mesh == m && edgeMap == map[] && nextEdge == 0 && nextFace == 0
    {
      mesh := m;
      edgeMap := map[];
      nextEdge := 0;
      nextFace := 0;
    }

    ghost predicate Valid()
      reads this, mesh.edges, mesh.faces
    {
      Wf(mesh.edges[..], mesh.faces[..], edgeMap, nextEdge, nextFace)
    }

    /** add_edge: takes the next free edge and sets its vertex. */
    method AddEdge(v: int) returns (idx: int)
      requires 0 <= nextEdge < mesh.edges.Length
      modifies mesh.edges, this`nextEdge
      ensures idx == old(nextEdge) && nextEdge == idx + 1
      ensures mesh.edges[..] == old(mesh.edges[..])[idx := old(mesh.edges[idx]).(v := v)]
    {
      idx := nextEdge;
      nextEdge := nextEdge + 1;
      mesh.edges[idx] := mesh.edges[idx].(v := v);
    }

    /** mark_opposite: looks up the reverse of e's pair; if an edge holds it, the two become
        each other's opposite, otherwise e's pair is entered unless already present. */
    method MarkOpposite(e: int)
      requires 0 <= e < mesh.edges.Length && 0 <= mesh.edges[e].next < mesh.edges.Length
      requires Marked(mesh.edges[..], edgeMap, e)
      requires mesh.edges[e].opposite == -1
      modifies mesh.edges, this`edgeMap
      ensures (mesh.edges[..], edgeMap) == Marking(old(mesh.edges[..]), old(edgeMap), e)
    {
      ghost var E := mesh.edges[..];
      MarkedOpposites(E, edgeMap, e);
      var n := mesh.edges[e].next;
      var v, w := mesh.edges[e].v, mesh.edges[n].v;
      if (w, v) in edgeMap {
        var op := edgeMap[(w, v)];
        mesh.edges[op] := mesh.edges[op].(opposite := e);
        mesh.edges[e] := mesh.edges[e].(opposite := op);
      } else if (v, w) !in edgeMap {
        edgeMap := edgeMap[(v, w) := e];
      }
    }

    /** The ring-linking part of mark_face: the last edge points back to the first, and
        each edge gets its face, its corner number, its prev link and its predecessor's
        next link. */
    method LinkRing(faceId: int, first: int, last: int)
      requires 0 <= first < last <= mesh.edges.Length
      modifies mesh.edges
      ensures mesh.edges[..] == Linking(old(mesh.edges[..]), faceId, first, last, last)
    {
      ghost var E0 := mesh.edges[..];
      var l := last - 1;
      mesh.edges[l] := mesh.edges[l].(next := first);
      mesh.edges[first] := mesh.edges[first].(prev := l, fv := 0, face := faceId);
      LinkStart(E0, mesh.edges[..], faceId, first, last);
      var k := first + 1;
      while k < last
        invariant first + 1 <= k <= last
        invariant mesh.edges[..] == Linking(E0, faceId, first, last, k)
      {
        ghost var E := mesh.edges[..];
        mesh.edges[k] := mesh.edges[k].(prev := k - 1, fv := k - first, face := faceId);
        mesh.edges[k - 1] := mesh.edges[k - 1].(next := k);
        LinkNext(E0, E, mesh.edges[..], faceId, first, last, k);
        k := k + 1;
      }
    }

    /** One step of mark_face's marking loop: marks edge k, whose opposite link is still
        the one it had before the loop began. */
    method MarkStep(ghost E1: seq<Edge>, first: int, k: int, k1: int)
      requires 0 <= first <= k < mesh.edges.Length && |E1| == mesh.edges.Length && k1 == k + 1
      requires E1[k].opposite == -1 && 0 <= E1[k].next < |E1|
      requires Marked(mesh.edges[..], edgeMap, k) && OppFrame(E1, mesh.edges[..], first, k)
      modifies mesh.edges, this`edgeMap
      ensures Marked(mesh.edges[..], edgeMap, k1) && OppFrame(E1, mesh.edges[..], first, k1)
    {
      ghost var E := mesh.edges[..];
      ghost var M := edgeMap;
      assert E[k] == E1[k].(opposite := E[k].opposite);
      MarkOpposite(k);
      OppFrameStep(E1, E, M, first, k);
    }

    /** The marking part of mark_face: marks the edges first..last-1 in order. */
    method MarkRange(first: int, last: int)
      requires 0 <= first <= last <= mesh.edges.Length
      requires Marked(mesh.edges[..], edgeMap, first)
      requires forall k | first <= k < last ::
        mesh.edges[k].opposite == -1 && 0 <= mesh.edges[k].next < mesh.edges.Length
      modifies mesh.edges, this`edgeMap
      ensures Marked(mesh.edges[..], edgeMap, last)
      ensures OppFrame(old(mesh.edges[..]), mesh.edges[..], first, last)
    {
      ghost var E1 := mesh.edges[..];
      assert forall k | first <= k < last :: E1[k].opposite == -1 && 0 <= E1[k].next < |E1|;
      var k := first;
      OppFrameStart(E1, first);
      while k < last
        invariant first <= k <= last && |E1| == mesh.edges.Length
        invariant Marked(mesh.edges[..], edgeMap, k)
        invariant OppFrame(E1, mesh.edges[..], first, k)
      {
        var k1 := k + 1;
        MarkStep(E1, first, k, k1);
        k := k1;
      }
      assert k == last;
    }

    /** mark_face for the edges first..last-1 (consecutive, as add_face allocates them):
        fills in the face record, links the edges into a ring in order, numbers their
        corners from 0 and marks each of them, in order, for opposites. */
    method MarkFace(isSubface: bool, faceId: int, first: int, last: int)
      requires 0 <= first < last <= mesh.edges.Length && 0 <= faceId < mesh.faces.Length
      requires Marked(mesh.edges[..], edgeMap, first)
      requires forall k | first <= k < last :: Unlinked(mesh.edges[k])
      modifies mesh.edges, mesh.faces, this`edgeMap
      ensures nextEdge == old(nextEdge) && nextFace == old(nextFace)
      ensures mesh.faces[..] ==
        old(mesh.faces[..])[faceId := Face(faceId, old(mesh.faces[faceId].ptexIndex), isSubface, first)]
      ensures Marked(mesh.edges[..], edgeMap, last)
      ensures OppFrame(Linking(old(mesh.edges[..]), faceId, first, last, last), mesh.edges[..], first, last)
    {
      ghost var E0 := mesh.edges[..];
      mesh.faces[faceId] := Face(faceId, mesh.faces[faceId].ptexIndex, isSubface, first);
      LinkRing(faceId, first, last);
      LinkedMarked(E0, mesh.edges[..], edgeMap, faceId, first, last);
      MarkRange(first, last);
    }

    /** The allocation loop of add_face: one fresh edge per vertex, in order. */
    method AddEdges(vs: seq<int>) returns (base: int)
      requires 0 <= nextEdge && nextEdge + |vs| <= mesh.edges.Length
      modifies mesh.edges, this`nextEdge
      ensures base == old(nextEdge) && nextEdge == base + |vs|
      ensures mesh.edges[..] == Allocated(old(mesh.edges[..]), base, vs)
      ensures mesh.faces[..] == old(mesh.faces[..])
    {
      base := nextEdge;
      var i := 0;
      while i < |vs|
        invariant 0 <= i <= |vs| && nextEdge == base + i
        invariant forall x | 0 <= x < mesh.edges.Length ::
          mesh.edges[x] == (if base <= x < base + i then old(mesh.edges[x]).(v := vs[x - base])
                            else old(mesh.edges[x]))
      {
        var e := AddEdge(vs[i]);
        i := i + 1;
      }
      assert mesh.edges[..] == Allocated(old(mesh.edges[..]), base, vs);
    }

    /** The allocation half of add_face: the face's edges are taken and given their
        vertices; the marked prefix is kept and the new edges are still unlinked. */
    method AllocFace(vs: seq<int>) returns (base: int)
      requires Valid()
      requires 1 <= |vs| && nextEdge + |vs| <= mesh.edges.Length && nextFace < mesh.faces.Length
      modifies mesh.edges, this`nextEdge
      ensures base == old(nextEdge) && nextEdge == base + |vs|
      ensures nextFace == old(nextFace) && edgeMap == old(edgeMap) && mesh.faces[..] == old(mesh.faces[..])
      ensures mesh.edges[..] == Allocated(old(mesh.edges[..]), base, vs)
      ensures Marked(mesh.edges[..], edgeMap, base)
      ensures forall k | base <= k < base + |vs| :: Unlinked(mesh.edges[k])
    {
      ghost var E0 := mesh.edges[..];
      base := AddEdges(vs);
      AllocFacts(E0, mesh.edges[..], edgeMap, base, nextFace, mesh.faces[..], vs);
    }

    /** add_face: allocates one edge per vertex, takes the next face record and marks the
        face with those edges; the new edges form a ring in vertex order. */
    method AddFace(vs: seq<int>) returns (f: int)
      requires Valid()
      requires 1 <= |vs| && nextEdge + |vs| <= mesh.edges.Length && nextFace < mesh.faces.Length
      modifies mesh.edges, mesh.faces, this`edgeMap, this`nextEdge, this`nextFace
      ensures Valid()
      ensures f == old(nextFace) && nextFace == f + 1 && nextEdge == old(nextEdge) + |vs|
      ensures mesh.faces[..] == old(mesh.faces[..])[f := Face(f, -1, false, old(nextEdge))]
      ensures RingAdded(mesh.edges[..], old(nextEdge), vs, f)
      ensures OldEdgesKept(old(mesh.edges[..]), mesh.edges[..], old(nextEdge), vs)
    {
      ghost var E0, F0, M0 := mesh.edges[..], mesh.faces[..], edgeMap;
      f := nextFace;
      var base := AllocFace(vs);
      var last := base + |vs|;
      ghost var EA := mesh.edges[..];
      MarkFace(false, f, base, last);
      nextFace := f + 1;
      AddFaceFacts(E0, F0, M0, base, f, vs, EA, mesh.edges[..], mesh.faces[..], edgeMap, last, f + 1);
    }
  }
}
