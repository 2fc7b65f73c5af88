/** Finite directed graphs, walks and reachability. */
module Digraph {

  type Graph<V(==)> = map<V, set<V>>

  /** A key that is absent has no outgoing edge, as a Go map lookup would say. */
  function Succ<V>(g: Graph<V>, v: V): set<V> {
    if v in g then g[v] else {}
  }

  predicate Edge<V(==)>(g: Graph<V>, a: V, b: V) {
    b in Succ(g, a)
  }

  ghost predicate IsWalk<V>(g: Graph<V>, p: seq<V>) {
    |p| >= 1 && forall i :: 0 <= i < |p| - 1 ==> Edge(g, p[i], p[i + 1])
  }

  ghost predicate IsClosedWalk<V>(g: Graph<V>, p: seq<V>) {
    |p| >= 2 && IsWalk(g, p) && p[0] == p[|p| - 1]
  }

  ghost predicate WalkBetween<V>(g: Graph<V>, p: seq<V>, a: V, b: V) {
    |p| >= 2 && IsWalk(g, p) && p[0] == a && p[|p| - 1] == b
  }

  /** b can be reached from a by one or more edges. */
  ghost predicate Reaches<V(!new)>(g: Graph<V>, a: V, b: V) {
    exists p :: WalkBetween(g, p, a, b)
  }

  ghost predicate Acyclic<V(!new)>(g: Graph<V>) {
    forall v :: !Reaches(g, v, v)
  }

  ghost predicate Closed<V(!new)>(g: Graph<V>, s: set<V>) {
    forall v :: v in s ==> Succ(g, v) <= s
  }

  /** Every key, and everything an edge points at. */
  ghost function Nodes<V>(g: Graph<V>): set<V> {
    g.Keys + set k, v | k in g && v in g[k] :: v
  }

  lemma NodesClosed<V(!new)>(g: Graph<V>)
    ensures Closed(g, Nodes(g))
  {
  }

  lemma EdgeReaches<V(!new)>(g: Graph<V>, a: V, b: V)
    requires Edge(g, a, b)
    ensures Reaches(g, a, b)
  {
    assert WalkBetween(g, [a, b], a, b);
  }

  lemma ReachesTransitive<V(!new)>(g: Graph<V>, a: V, b: V, c: V)
    requires Reaches(g, a, b) && Reaches(g, b, c)
    ensures Reaches(g, a, c)
  {
    var p :| WalkBetween(g, p, a, b);
    var q :| WalkBetween(g, q, b, c);
    var w := p + q[1..];
    forall i | 0 <= i < |w| - 1
      ensures Edge(g, w[i], w[i + 1])
    {
      if i < |p| - 1 {
        assert Edge(g, p[i], p[i + 1]);
      } else {
        assert Edge(g, q[i - |p| + 1], q[i - |p| + 2]);
      }
    }
    assert WalkBetween(g, w, a, c);
  }

  /** The first step of a walk. */
  lemma ReachesFirstStep<V(!new)>(g: Graph<V>, a: V, b: V) returns (c: V)
    requires Reaches(g, a, b)
    ensures Edge(g, a, c) && (c == b || Reaches(g, c, b))
  {
    var p :| WalkBetween(g, p, a, b);
    c := p[1];
    assert Edge(g, p[0], p[1]);
    if |p| > 2 {
      var q := p[1..];
      forall i | 0 <= i < |q| - 1
        ensures Edge(g, q[i], q[i + 1])
      {
        assert Edge(g, p[i + 1], p[i + 2]);
      }
      assert WalkBetween(g, q, c, b);
    }
  }

  /** A walk cannot leave a closed set. */
  lemma {:induction false} WalkStaysInside<V(!new)>(g: Graph<V>, s: set<V>, p: seq<V>, k: nat)
    requires IsWalk(g, p) && Closed(g, s) && k < |p|
    requires p[0] in s
    ensures p[k] in s
  {
    if k > 0 {
      WalkStaysInside(g, s, p, k - 1);
      assert Edge(g, p[k - 1], p[k - 1 + 1]);
    }
  }

  lemma ReachesStaysInside<V(!new)>(g: Graph<V>, s: set<V>, a: V, b: V)
    requires Reaches(g, a, b) && Closed(g, s) && Succ(g, a) <= s
    ensures b in s
  {
    var c := ReachesFirstStep(g, a, b);
    if c != b {
      var p :| WalkBetween(g, p, c, b);
      WalkStaysInside(g, s, p, |p| - 1);
    }
  }

  ghost function ReachSet<V(!new)>(g: Graph<V>, v: V): set<V> {
    set u | u in Nodes(g) && Reaches(g, v, u)
  }

  lemma ReachSetComplete<V(!new)>(g: Graph<V>, a: V, b: V)
    requires Reaches(g, a, b)
    ensures b in ReachSet(g, a)
  {
    NodesClosed(g);
    ReachesStaysInside(g, Nodes(g), a, b);
  }

  lemma SubsetSize<V>(a: set<V>, b: set<V>)
    requires a <= b
    ensures |a| <= |b|
    ensures a != b ==> |a| < |b|
  {
    assert b == a + (b - a);
  }

  /** A numbering that strictly drops along every edge. */
  ghost predicate Ranks<V(!new)>(g: Graph<V>, rank: map<V, nat>) {
    Nodes(g) <= rank.Keys && forall a, b :: Edge(g, a, b) ==> a in rank && b in rank && rank[b] < rank[a]
  }

  ghost function Height<V(!new)>(g: Graph<V>): map<V, nat> {
    map v | v in Nodes(g) :: |ReachSet(g, v)|
  }

  /** In an acyclic graph the number of reachable nodes is such a numbering. */
  lemma AcyclicHasRank<V(!new)>(g: Graph<V>)
    requires Acyclic(g)
    ensures Ranks(g, Height(g))
  {
    forall a, b | Edge(g, a, b)
      ensures a in Height(g) && b in Height(g) && Height(g)[b] < Height(g)[a]
    {
      EdgeReaches(g, a, b);
      ReachSetComplete(g, a, b);
      forall u | u in ReachSet(g, b)
        ensures u in ReachSet(g, a)
      {
        ReachesTransitive(g, a, b, u);
      }
      assert b !in ReachSet(g, b);
      SubsetSize(ReachSet(g, b), ReachSet(g, a));
    }
  }

  lemma {:induction false} RankDropsAlong<V(!new)>(g: Graph<V>, rank: map<V, nat>, p: seq<V>, k: nat)
    requires Ranks(g, rank) && IsWalk(g, p) && 1 <= k < |p|
    ensures p[0] in rank && p[k] in rank && rank[p[k]] < rank[p[0]]
  {
    assert Edge(g, p[k - 1], p[k - 1 + 1]);
    if k > 1 {
      RankDropsAlong(g, rank, p, k - 1);
    }
  }

  /** Acyclicity is exactly the existence of a ranking. */
  lemma AcyclicIffRanked<V(!new)>(g: Graph<V>)
    ensures Acyclic(g) <==> exists rank :: Ranks(g, rank)
  {
    if Acyclic(g) {
      AcyclicHasRank(g);
    }
    if rank :| Ranks(g, rank) {
      forall v
        ensures !Reaches(g, v, v)
      {
        if Reaches(g, v, v) {
          var p :| WalkBetween(g, p, v, v);
          RankDropsAlong(g, rank, p, |p| - 1);
        }
      }
    }
  }

  lemma ClosedWalkIsReach<V(!new)>(g: Graph<V>, p: seq<V>)
    requires IsClosedWalk(g, p)
    ensures !Acyclic(g)
  {
    assert WalkBetween(g, p, p[0], p[0]);
    assert Reaches(g, p[0], p[0]);
  }

  // Transposition.

  ghost predicate Transposed<V(!new)>(g: Graph<V>, r: Graph<V>) {
    forall a, b :: Edge(g, a, b) <==> Edge(r, b, a)
  }

  ghost function Reversed<V>(p: seq<V>): (q: seq<V>) {
    seq(|p|, i requires 0 <= i < |p| => p[|p| - 1 - i])
  }

  /** Reachability in the transpose is reachability backwards. */
  lemma ReachesTransposed<V(!new)>(g: Graph<V>, r: Graph<V>, a: V, b: V)
    requires Transposed(g, r) && Reaches(g, a, b)
    ensures Reaches(r, b, a)
  {
    var p :| WalkBetween(g, p, a, b);
    var q := Reversed(p);
    forall i | 0 <= i < |q| - 1
      ensures Edge(r, q[i], q[i + 1])
    {
      assert Edge(g, p[|p| - 2 - i], p[|p| - 2 - i + 1]);
    }
    assert WalkBetween(r, q, b, a);
  }
}
