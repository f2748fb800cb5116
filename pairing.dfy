/** The pairing of opposite half-edges through the builder's edge map, as a pure process.

    Every half-edge x runs from its vertex to the vertex of the next edge of its face, so
    it carries a directed pair (v, w).  The builder marks the edges one after the other in
    allocation order; marking edge x with pair p looks up the reversed pair: if an edge
    holding it is found, the two become each other's opposite, otherwise p is entered into
    the map (an existing entry is never overwritten).  Run folds that step over the pairs of
    all edges, indexed by edge number, and yields the opposite of every edge (-1 when none)
    and the final map. */
module Pairing {

  type Pair = (int, int)

  function Rev(p: Pair): Pair { (p.1, p.0) }

  /** opp[x] is the opposite recorded for edge x so far (-1 for none); m is the edge map. */
  datatype State = State(opp: seq<int>, m: map<Pair, int>)

  predicate Indexed(s: State)
  {
    forall k | k in s.m :: 0 <= s.m[k] < |s.opp|
  }

  /** Marking the next edge, whose directed pair is p. */
  function Step(s: State, p: Pair): State
    requires Indexed(s)
  {
    var x := |s.opp|;
    if Rev(p) in s.m then
      var op := s.m[Rev(p)];
      State(s.opp[op := x] + [op], s.m)
    else if p in s.m then
      State(s.opp + [-1], s.m)
    else
      State(s.opp + [-1], s.m[p := x])
  }

  /** Marking the edges with pairs P, in order, starting from no opposites and an empty map. */
  function Run(P: seq<Pair>): (s: State)
    ensures |s.opp| == |P| && Indexed(s)
  {
    if |P| == 0 then State([], map[])
    else Step(Run(P[..|P| - 1]), P[|P| - 1])
  }

  /** s is what marking edges with pairs P can produce: every map entry names an edge
      holding that pair, and a recorded opposite is another edge holding the reversed pair. */
  predicate Sound(P: seq<Pair>, s: State)
  {
    |s.opp| == |P| &&
    (forall k | k in s.m :: 0 <= s.m[k] < |P| && P[s.m[k]] == k) &&
    (forall x | 0 <= x < |P| && s.opp[x] != -1 ::
       0 <= s.opp[x] < |P| && s.opp[x] != x && P[s.opp[x]] == Rev(P[x]))
  }

  lemma StepSound(Q: seq<Pair>, s: State, p: Pair)
    requires Sound(Q, s)
    ensures Indexed(s) && Sound(Q + [p], Step(s, p))
  {
    var P := Q + [p];
    assert forall y | 0 <= y < |Q| :: P[y] == Q[y];
  }

  /** Whatever the input, the pairing is sound. */
  lemma {:induction false} RunSound(P: seq<Pair>)
    ensures Sound(P, Run(P))
  {
    if |P| > 0 {
      var n := |P| - 1;
      var Q := P[..n];
      RunSound(Q);
      assert P == Q + [P[n]];
      StepSound(Q, Run(Q), P[n]);
    }
  }

  /** Map entries are never removed and never overwritten: marking more edges keeps every
      entry of an earlier map. */
  lemma {:induction false} MapGrows(P: seq<Pair>, n: nat)
    requires n <= |P|
    ensures forall k | k in Run(P[..n]).m :: k in Run(P).m && Run(P).m[k] == Run(P[..n]).m[k]
    decreases |P| - n
  {
    if n < |P| {
      var Q := P[..|P| - 1];
      assert Q[..n] == P[..n];
      MapGrows(Q, n);
      assert P[..|P|] == P;
    } else {
      assert P[..n] == P;
    }
  }

  /** Every directed pair occurs at most once. */
  predicate Injective(P: seq<Pair>)
  {
    forall a, b | 0 <= a < |P| && 0 <= b < |P| && P[a] == P[b] :: a == b
  }

  /** y is an edge other than x holding the reverse of x's pair. */
  predicate IsPartner(P: seq<Pair>, x: int, y: int)
    requires 0 <= x < |P|
  {
    0 <= y < |P| && y != x && P[y] == Rev(P[x])
  }

  predicate NoPartner(P: seq<Pair>, x: int)
    requires 0 <= x < |P|
  {
    forall y | 0 <= y < |P| :: !IsPartner(P, x, y)
  }

  /** Each edge's opposite is its partner, or -1 exactly when it has none. */
  predicate Paired(P: seq<Pair>, opp: seq<int>)
  {
    |opp| == |P| &&
    forall x | 0 <= x < |P| :: if opp[x] == -1 then NoPartner(P, x) else IsPartner(P, x, opp[x])
  }

  predicate NoEarlierRev(P: seq<Pair>, x: int)
    requires 0 <= x < |P|
  {
    forall y | 0 <= y < x :: P[y] != Rev(P[x])
  }

  /** The map holds the pair of an edge exactly when no earlier edge holds its reverse. */
  predicate Keyed(P: seq<Pair>, m: map<Pair, int>)
  {
    forall x | 0 <= x < |P| :: P[x] in m <==> NoEarlierRev(P, x)
  }

  /** s is a state reached by marking the edges with pairs Q. */
  predicate Consistent(Q: seq<Pair>, s: State)
  {
    |s.opp| == |Q| && forall k | k in s.m :: 0 <= s.m[k] < |Q| && Q[s.m[k]] == k
  }

  /** Marking a new edge whose reversed pair is in the map pairs the two and keeps the
      partner invariants. */
  lemma StepMatch(Q: seq<Pair>, s: State, p: Pair)
    requires Injective(Q + [p]) && Consistent(Q, s)
    requires Paired(Q, s.opp) && Keyed(Q, s.m)
    requires Rev(p) in s.m
    ensures Paired(Q + [p], Step(s, p).opp) && Keyed(Q + [p], Step(s, p).m)
  {
    var P := Q + [p];
    var n := |Q|;
    var op := s.m[Rev(p)];
    var s' := Step(s, p);
    assert forall y | 0 <= y < n :: P[y] == Q[y];
    assert forall y | 0 <= y < n :: P[y] != P[n];
    assert P[op] == Rev(p);
    assert s'.opp == s.opp[op := n] + [op];
    forall x | 0 <= x < |P|
      ensures if s'.opp[x] == -1 then NoPartner(P, x) else IsPartner(P, x, s'.opp[x])
    {
      if x == n {
        assert IsPartner(P, n, op);
      } else if x == op {
        assert IsPartner(P, op, n);
      } else {
        forall y | 0 <= y < |P| && IsPartner(P, x, y)
          ensures y < n && IsPartner(Q, x, y)
        {
        }
        if s.opp[x] == -1 {
          assert NoPartner(Q, x);
        } else {
          assert IsPartner(Q, x, s.opp[x]);
        }
      }
    }
    forall x | 0 <= x < |P|
      ensures P[x] in s'.m <==> NoEarlierRev(P, x)
    {
      if x == n {
        assert P[op] == Rev(P[n]);
        assert !NoEarlierRev(P, n);
        assert P[n] !in s.m;
      } else {
        assert NoEarlierRev(P, x) == NoEarlierRev(Q, x);
      }
    }
  }

  /** Marking a new edge whose reversed pair is not in the map leaves it unpaired and
      enters its pair, and keeps the partner invariants. */
  lemma StepInsert(Q: seq<Pair>, s: State, p: Pair)
    requires Injective(Q + [p]) && Consistent(Q, s)
    requires Paired(Q, s.opp) && Keyed(Q, s.m)
    requires Rev(p) !in s.m
    ensures Paired(Q + [p], Step(s, p).opp) && Keyed(Q + [p], Step(s, p).m)
  {
    var P := Q + [p];
    var n := |Q|;
    var s' := Step(s, p);
    assert forall y | 0 <= y < n :: P[y] == Q[y];
    assert forall y | 0 <= y < n :: P[y] != P[n];
    // no earlier edge holds the reverse of p, and p itself is new
    forall y | 0 <= y < n
      ensures P[y] != Rev(p)
    {
      if P[y] == Rev(p) {
        assert NoEarlierRev(Q, y);
      }
    }
    assert p !in s.m;
    assert s'.opp == s.opp + [-1];
    assert s'.m == s.m[p := n];
    forall x | 0 <= x < |P|
      ensures if s'.opp[x] == -1 then NoPartner(P, x) else IsPartner(P, x, s'.opp[x])
    {
      if x == n {
        forall y | 0 <= y < |P|
          ensures !IsPartner(P, n, y)
        {
        }
      } else {
        forall y | 0 <= y < |P| && IsPartner(P, x, y)
          ensures y < n && IsPartner(Q, x, y)
        {
        }
        if s.opp[x] == -1 {
          assert NoPartner(Q, x);
        } else {
          assert IsPartner(Q, x, s.opp[x]);
        }
      }
    }
    forall x | 0 <= x < |P|
      ensures P[x] in s'.m <==> NoEarlierRev(P, x)
    {
      if x < n {
        assert P[x] != p;
        assert NoEarlierRev(P, x) == NoEarlierRev(Q, x);
      }
    }
  }

  /** When every directed pair occurs at most once, the pairing finds every partner. */
  lemma {:induction false} RunPartners(P: seq<Pair>)
    requires Injective(P)
    ensures Paired(P, Run(P).opp)
    ensures Keyed(P, Run(P).m)
  {
    if |P| > 0 {
      var n := |P| - 1;
      var Q := P[..n];
      assert P == Q + [P[n]];
      RunPartners(Q);
      RunSound(Q);
      var s := Run(Q);
      assert Consistent(Q, s);
      if Rev(P[n]) in s.m {
        StepMatch(Q, s, P[n]);
      } else {
        StepInsert(Q, s, P[n]);
      }
    }
  }

  /** When every directed pair occurs at most once, y is the opposite of x exactly when it
      is another edge holding the reversed pair, and -1 exactly when there is none. */
  lemma PartnerIff(P: seq<Pair>, x: int, y: int)
    requires Injective(P)
    requires 0 <= x < |P| && 0 <= y < |P|
    ensures Run(P).opp[x] == y <==> y != x && P[y] == Rev(P[x])
    ensures Run(P).opp[x] == -1 <==> NoPartner(P, x)
  {
    RunPartners(P);
    var s := Run(P);
    var o := s.opp[x];
    if o != -1 {
      assert IsPartner(P, x, o);
      assert !NoPartner(P, x);
      if y != x && P[y] == Rev(P[x]) {
        assert P[y] == P[o];
      }
    } else {
      assert NoPartner(P, x);
      assert !IsPartner(P, x, y);
    }
  }

  /** When every directed pair occurs at most once, opposite is an involution. */
  lemma OppositeInvolution(P: seq<Pair>, x: int)
    requires Injective(P)
    requires 0 <= x < |P| && Run(P).opp[x] != -1
    ensures var o := Run(P).opp[x]; 0 <= o < |P| && Run(P).opp[o] == x
  {
    RunSound(P);
    var o := Run(P).opp[x];
    PartnerIff(P, x, o);
    PartnerIff(P, o, x);
  }

  /** How the two edges lo < hi, holding each other's reversed pair and each the only one
      holding its pair, stand after the first n edges are marked. */
  predicate LocalFacts(P: seq<Pair>, lo: int, hi: int, n: int, s: State)
    requires 0 <= lo < hi < |P|
  {
    |s.opp| == n <= |P| &&
    (forall k | k in s.m :: 0 <= s.m[k] < n && P[s.m[k]] == k) &&
    P[hi] !in s.m &&
    (lo < n <= hi ==> P[lo] in s.m && s.m[P[lo]] == lo && s.opp[lo] == -1) &&
    (hi < n ==> s.opp[lo] == hi && s.opp[hi] == lo)
  }

  lemma LocalStep(P: seq<Pair>, lo: int, hi: int, n: nat, s: State)
    requires 0 <= lo < hi < |P| && n < |P|
    requires P[hi] == Rev(P[lo])
    requires forall k | 0 <= k < |P| && P[k] == P[lo] :: k == lo
    requires forall k | 0 <= k < |P| && P[k] == P[hi] :: k == hi
    requires LocalFacts(P, lo, hi, n, s)
    ensures Indexed(s) && LocalFacts(P, lo, hi, n + 1, Step(s, P[n]))
  {
    var p := P[n];
    if n == lo {
      assert Rev(p) == P[hi];
      assert p !in s.m;
    } else if n == hi {
      assert Rev(p) == P[lo];
    } else if Rev(p) in s.m {
      var op := s.m[Rev(p)];
      assert op != lo && op != hi;
    }
  }

  lemma RunUnfold(P: seq<Pair>, n: nat)
    requires n < |P|
    ensures Indexed(Run(P[..n])) && Run(P[..n + 1]) == Step(Run(P[..n]), P[n])
  {
    assert P[..n + 1][..n] == P[..n];
  }

  lemma {:induction false} LocalPrefix(P: seq<Pair>, lo: int, hi: int, n: nat)
    requires 0 <= lo < hi < |P| && n <= |P|
    requires P[hi] == Rev(P[lo])
    requires forall k | 0 <= k < |P| && P[k] == P[lo] :: k == lo
    requires forall k | 0 <= k < |P| && P[k] == P[hi] :: k == hi
    ensures LocalFacts(P, lo, hi, n, Run(P[..n]))
  {
    if n == 0 {
      assert Run(P[..0]) == State([], map[]);
    } else {
      LocalPrefix(P, lo, hi, n - 1);
      var s := Run(P[..n - 1]);
      LocalStep(P, lo, hi, n - 1, s);
      RunUnfold(P, n - 1);
      assert Run(P[..n]) == Step(s, P[n - 1]);
    }
  }

  /** Without assuming anything of the other pairs: if x's pair occurs only at x and its
      reverse only at y, then x and y end up as each other's opposite. */
  lemma LocalPartner(P: seq<Pair>, x: int, y: int)
    requires 0 <= x < |P| && 0 <= y < |P| && x != y
    requires P[y] == Rev(P[x])
    requires forall k | 0 <= k < |P| && P[k] == P[x] :: k == x
    requires forall k | 0 <= k < |P| && P[k] == P[y] :: k == y
    ensures Run(P).opp[x] == y && Run(P).opp[y] == x
  {
    assert P[..|P|] == P;
    if x < y {
      LocalPrefix(P, x, y, |P|);
    } else {
      LocalPrefix(P, y, x, |P|);
    }
  }
}
