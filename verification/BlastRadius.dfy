/** dependency.NewBlastRadius: packages with unusually many transitive dependents. Go's float64 is
    modelled by `real`; every value that occurs is a multiple of 1/8. */
module BlastRadius {
  import opened DependencyRules
  import opened Digraph
  import opened GoStrings
  import opened Options
  import opened ProjectContext
  import opened Sorting

  // The import graph.

  function InternalSet(ctx: Context): set<string> {
    set i | 0 <= i < |ctx.pkgs| && HasPrefix(ctx.pkgs[i].path, InternalPrefix(ctx)) &&
        !ExcludedPackage(ctx, ctx.pkgs[i].path)
      :: ctx.pkgs[i].path
  }

  /** The imports of the last loaded package with this path. */
  function LastImports(pkgs: seq<Package>, path: string): set<string> {
    if pkgs == [] then {}
    else if pkgs[|pkgs| - 1].path == path then pkgs[|pkgs| - 1].imports
    else LastImports(pkgs[..|pkgs| - 1], path)
  }

  function ImportGraph(ctx: Context): Graph<string> {
    map p | p in InternalSet(ctx) :: LastImports(ctx.pkgs, p) * InternalSet(ctx)
  }

  method CollectInternal(ctx: Context) returns (internal: set<string>)
    ensures internal == InternalSet(ctx)
  {
    hide ExcludedPackage, InternalPrefix;
    internal := {};
    for n := 0 to |ctx.pkgs|
      invariant internal == set i | 0 <= i < n && HasPrefix(ctx.pkgs[i].path, InternalPrefix(ctx)) &&
            !ExcludedPackage(ctx, ctx.pkgs[i].path)
          :: ctx.pkgs[i].path
    {
      var path := ctx.pkgs[n].path;
      var excluded := IsExcluded(ctx, RelativePath(path, ctx.moduleName));
      ExcludedMeaning(ctx, path);
      if HasPrefix(path, InternalPrefix(ctx)) && !excluded {
        internal := internal + {path};
      }
    }
  }

  /** The forward map after the first n packages. */
  ghost predicate ForwardUpTo(pkgs: seq<Package>, internal: set<string>, n: nat, forward: Graph<string>)
    requires n <= |pkgs|
  {
    && (forall p :: p in forward <==> p in internal && exists i :: 0 <= i < n && pkgs[i].path == p)
    && (forall p :: p in forward ==> forward[p] == LastImports(pkgs[..n], p) * internal)
  }

  lemma ForwardStep(pkgs: seq<Package>, internal: set<string>, n: nat, forward: Graph<string>)
    requires n < |pkgs| && ForwardUpTo(pkgs, internal, n, forward)
    ensures ForwardUpTo(pkgs, internal, n + 1,
      if pkgs[n].path in internal then forward[pkgs[n].path := pkgs[n].imports * internal] else forward)
  {
    assert pkgs[..n + 1][..n] == pkgs[..n];
  }

  method BuildForward(ctx: Context, internal: set<string>) returns (forward: Graph<string>)
    requires internal == InternalSet(ctx)
    ensures forward == ImportGraph(ctx)
  {
    hide ForwardUpTo;
    forward := map[];
    ForwardStart(ctx.pkgs, internal);
    for n := 0 to |ctx.pkgs|
      invariant ForwardUpTo(ctx.pkgs, internal, n, forward)
    {
      var pkg := ctx.pkgs[n];
      ForwardStep(ctx.pkgs, internal, n, forward);
      if pkg.path in internal {
        var deps := set imp | imp in pkg.imports && imp in internal;
        assert deps == pkg.imports * internal;
        forward := forward[pkg.path := deps];
      }
    }
    ForwardEnd(ctx, forward);
  }

  lemma ForwardStart(pkgs: seq<Package>, internal: set<string>)
    ensures ForwardUpTo(pkgs, internal, 0, map[])
  {
  }

  lemma ForwardEnd(ctx: Context, forward: Graph<string>)
    requires ForwardUpTo(ctx.pkgs, InternalSet(ctx), |ctx.pkgs|, forward)
    ensures forward == ImportGraph(ctx)
  {
    hide ExcludedPackage, InternalPrefix, LastImports;
    assert ctx.pkgs[..|ctx.pkgs|] == ctx.pkgs;
    assert forward.Keys == InternalSet(ctx);
  }

  method BuildReverse(internal: set<string>, forward: Graph<string>) returns (reverse: Graph<string>)
    requires forward.Keys == internal && Closed(forward, internal)
    ensures reverse.Keys == internal && Transposed(forward, reverse)
  {
    reverse := map p | p in internal :: {};
    var sources := internal;
    while sources != {}
      invariant sources <= internal && reverse.Keys == internal
      invariant forall a, b :: Edge(reverse, b, a) <==> Edge(forward, a, b) && a !in sources
      decreases sources
    {
      var src :| src in sources;
      ghost var before := reverse;
      var deps := forward[src];
      while deps != {}
        invariant deps <= forward[src] && reverse.Keys == internal
        invariant forall a, b :: Edge(reverse, b, a) <==> Edge(before, b, a) || (a == src && b in forward[src] - deps)
        decreases deps
      {
        var dep :| dep in deps;
        assert Edge(forward, src, dep) && dep in Succ(forward, src);
        ghost var r := reverse;
        reverse := reverse[dep := reverse[dep] + {src}];
        assert forall a, b :: Edge(reverse, b, a) <==> Edge(r, b, a) || (a == src && b == dep);
        deps := deps - {dep};
      }
      sources := sources - {src};
    }
  }

  // Breadth-first search.

  /** The queue loop: everything reachable from pkg along the given edges, and pkg itself. */
  method Visit(reverse: Graph<string>, pkg: string) returns (visited: set<string>)
    requires pkg in reverse && Closed(reverse, reverse.Keys)
    ensures visited == {pkg} + ReachSet(reverse, pkg)
  {
    visited := {pkg};
    var queue := [pkg];
    while queue != []
      invariant pkg in visited && visited <= reverse.Keys
      invariant forall v :: v in queue ==> v in visited
      invariant forall v :: v in visited ==> v == pkg || Reaches(reverse, pkg, v)
      invariant forall v :: v in visited && v !in queue ==> Succ(reverse, v) <= visited
      decreases reverse.Keys - visited, |queue|
    {
      var cur := queue[0];
      ghost var waiting := queue;
      queue := queue[1..];
      visited, queue := VisitNeighbours(reverse, pkg, cur, visited, queue);
    }
    VisitedIsReachable(reverse, pkg, visited);
  }

  /** The inner loop: unvisited neighbours are marked and appended to the queue. */
  method VisitNeighbours(reverse: Graph<string>, ghost pkg: string, cur: string, visited0: set<string>,
      queue0: seq<string>)
    returns (visited: set<string>, queue: seq<string>)
    requires Closed(reverse, reverse.Keys) && visited0 <= reverse.Keys && cur in visited0
    requires cur == pkg || Reaches(reverse, pkg, cur)
    requires forall v :: v in visited0 ==> v == pkg || Reaches(reverse, pkg, v)
    ensures visited0 <= visited <= reverse.Keys && visited == visited0 + Succ(reverse, cur)
    ensures forall v :: v in queue <==> v in queue0 || v in visited - visited0
    ensures visited == visited0 ==> queue == queue0
    ensures forall v :: v in visited ==> v == pkg || Reaches(reverse, pkg, v)
  {
    visited, queue := visited0, queue0;
    var rest := Succ(reverse, cur);
    while rest != {}
      invariant rest <= Succ(reverse, cur)
      invariant visited == visited0 + (Succ(reverse, cur) - rest)
      invariant forall v :: v in queue <==> v in queue0 || v in visited - visited0
      invariant visited == visited0 ==> queue == queue0
      decreases rest
    {
      var dep :| dep in rest;
      rest := rest - {dep};
      if dep !in visited {
        visited := visited + {dep};
        queue := queue + [dep];
      }
    }
    forall v | v in visited
      ensures v == pkg || Reaches(reverse, pkg, v)
    {
      if v !in visited0 {
        assert Edge(reverse, cur, v);
        EdgeReaches(reverse, cur, v);
        if cur != pkg {
          ReachesTransitive(reverse, pkg, cur, v);
        }
      }
    }
  }

  lemma VisitedIsReachable(reverse: Graph<string>, pkg: string, visited: set<string>)
    requires pkg in visited && Closed(reverse, visited)
    requires forall v :: v in visited ==> v == pkg || Reaches(reverse, pkg, v)
    ensures visited == {pkg} + ReachSet(reverse, pkg)
  {
    forall v | Reaches(reverse, pkg, v)
      ensures v in visited
    {
      ReachesStaysInside(reverse, visited, pkg, v);
    }
    forall v | v in visited && v != pkg
      ensures v in ReachSet(reverse, pkg)
    {
      ReachSetComplete(reverse, pkg, v);
    }
  }

  // Metrics.

  /** The other packages that reach p by one or more imports. */
  ghost function Dependents(g: Graph<string>, p: string): set<string> {
    set q | q in g && q != p && Reaches(g, q, p)
  }

  datatype Metrics = Metrics(path: string, ca: nat, ce: nat, instability: real, dependents: nat)

  ghost predicate Measures(g: Graph<string>, m: Metrics) {
    && m.path in g
    && m.dependents == |Dependents(g, m.path)|
    && m.ca == |set q | q in g && m.path in g[q]|
    && m.ce == |g[m.path]|
    && m.instability == if m.ca + m.ce > 0 then m.ce as real / (m.ca + m.ce) as real else 0.0
  }

  ghost predicate MeasuresAll(g: Graph<string>, nodes: set<string>, ms: seq<Metrics>) {
    && (forall i :: 0 <= i < |ms| ==> Measures(g, ms[i]))
    && (forall i, j :: 0 <= i < j < |ms| ==> ms[i].path != ms[j].path)
    && (forall p :: p in nodes <==> exists i :: 0 <= i < |ms| && ms[i].path == p)
  }

  /** The visited set without its origin is the set of dependents. */
  lemma VisitedAreDependents(g: Graph<string>, r: Graph<string>, p: string, visited: set<string>)
    requires Transposed(g, r) && g.Keys == r.Keys && Closed(r, r.Keys) && p in g
    requires visited == {p} + ReachSet(r, p)
    ensures visited - {p} == Dependents(g, p)
  {
    forall q | q != p
      ensures q in visited <==> q in Dependents(g, p)
    {
      if q in visited {
        ReachesTransposed(r, g, p, q);
        ReachesStaysInside(r, r.Keys, p, q);
      }
      if q in Dependents(g, p) {
        ReachesTransposed(g, r, q, p);
        ReachSetComplete(r, p, q);
      }
    }
  }

  /** collectBlastMetrics. */
  method CollectMetrics(internal: set<string>, forward: Graph<string>,
      reverse: Graph<string>) returns (ms: seq<Metrics>)
    requires forward.Keys == internal == reverse.Keys && Transposed(forward, reverse)
    requires Closed(forward, internal)
    ensures MeasuresAll(forward, internal, ms)
  {
    ms := [];
    var rest := internal;
    TransposeClosed(forward, reverse);
    while rest != {}
      invariant rest <= internal && MeasuresAll(forward, internal - rest, ms)
      decreases rest
    {
      var pkg :| pkg in rest;
      var m := MeasureOne(forward, reverse, pkg);
      MeasureMore(forward, internal - rest, ms, m);
      rest := rest - {pkg};
      ms := ms + [m];
      assert internal - rest == (internal - (rest + {pkg})) + {pkg};
    }
    assert internal - rest == internal;
  }

  lemma MeasureMore(g: Graph<string>, nodes: set<string>, ms: seq<Metrics>, m: Metrics)
    requires MeasuresAll(g, nodes, ms) && Measures(g, m) && m.path !in nodes
    ensures MeasuresAll(g, nodes + {m.path}, ms + [m])
  {
    hide Measures;
    var all := ms + [m];
    forall p
      ensures p in nodes + {m.path} <==> exists i :: 0 <= i < |all| && all[i].path == p
    {
      if p in nodes {
        var i :| 0 <= i < |ms| && ms[i].path == p;
        assert all[i].path == p;
      }
      assert all[|ms|].path == m.path;
      if i :| 0 <= i < |all| && all[i].path == p {
        assert i < |ms| ==> ms[i].path == p;
      }
    }
  }

  method MeasureOne(forward: Graph<string>, reverse: Graph<string>, pkg: string) returns (m: Metrics)
    requires forward.Keys == reverse.Keys && Transposed(forward, reverse) && Closed(reverse, reverse.Keys)
    requires pkg in forward
    ensures Measures(forward, m) && m.path == pkg
  {
    var ca, ce := |reverse[pkg]|, |forward[pkg]|;
    var instability := if ca + ce > 0 then ce as real / (ca + ce) as real else 0.0;
    var visited := Visit(reverse, pkg);
    m := Metrics(pkg, ca, ce, instability, |visited| - 1);
    VisitedAreDependents(forward, reverse, pkg, visited);
    assert visited == (visited - {pkg}) + {pkg};
    assert reverse[pkg] == set q | q in forward && pkg in forward[q] by {
      forall q
        ensures q in reverse[pkg] <==> q in forward && pkg in forward[q]
      {
        assert Edge(forward, q, pkg) <==> Edge(reverse, pkg, q);
      }
    }
  }

  lemma TransposeClosed(g: Graph<string>, r: Graph<string>)
    requires Transposed(g, r) && g.Keys == r.Keys
    ensures Closed(r, r.Keys)
  {
    forall v, w | v in r && w in Succ(r, v)
      ensures w in r
    {
      assert Edge(r, v, w);
      assert Edge(g, w, v);
    }
  }

  ghost function Sum(xs: seq<nat>): nat {
    if xs == [] then 0 else xs[0] + Sum(xs[1..])
  }

  ghost function EdgesFrom(g: Graph<string>, ps: seq<string>): set<(string, string)> {
    set a, b | a in ps && b in Succ(g, a) :: (a, b)
  }

  ghost function Degrees(g: Graph<string>, ps: seq<string>): seq<nat> {
    seq(|ps|, i requires 0 <= i < |ps| => |Succ(g, ps[i])|)
  }

  lemma PairsFrom(a: string, bs: set<string>)
    ensures |set b | b in bs :: (a, b)| == |bs|
  {
    if bs != {} {
      var x :| x in bs;
      PairsFrom(a, bs - {x});
      assert (set b | b in bs :: (a, b)) == (set b | b in bs - {x} :: (a, b)) + {(a, x)};
    }
  }

  lemma {:induction false} DegreesCountEdges(g: Graph<string>, ps: seq<string>)
    requires forall i, j :: 0 <= i < j < |ps| ==> ps[i] != ps[j]
    ensures Sum(Degrees(g, ps)) == |EdgesFrom(g, ps)|
  {
    if ps != [] {
      var a, t := ps[0], ps[1..];
      var here := set b | b in Succ(g, a) :: (a, b);
      forall i, j | 0 <= i < j < |t|
        ensures t[i] != t[j]
      {
        assert ps[i + 1] != ps[j + 1];
      }
      forall i | 0 <= i < |t|
        ensures t[i] != a
      {
        assert ps[0] != ps[i + 1];
      }
      DegreesCountEdges(g, t);
      PairsFrom(a, Succ(g, a));
      assert Degrees(g, ps)[1..] == Degrees(g, t);
      assert ps == [a] + t;
      assert here !! EdgesFrom(g, t);
      assert EdgesFrom(g, ps) == here + EdgesFrom(g, t);
    }
  }

  ghost function Swapped(s: set<(string, string)>): set<(string, string)> {
    set e | e in s :: (e.1, e.0)
  }

  lemma SwapKeepsSize(s: set<(string, string)>)
    ensures |Swapped(s)| == |s|
  {
    if s != {} {
      var e :| e in s;
      SwapKeepsSize(s - {e});
      assert Swapped(s) == Swapped(s - {e}) + {(e.1, e.0)};
    }
  }

  function TransposeOf(g: Graph<string>): Graph<string> {
    map p | p in g :: set q | q in g && p in g[q]
  }

  lemma EdgesSwap(g: Graph<string>, ps: seq<string>)
    requires Closed(g, g.Keys) && forall p :: p in ps <==> p in g
    ensures EdgesFrom(TransposeOf(g), ps) == Swapped(EdgesFrom(g, ps))
  {
    var r := TransposeOf(g);
    forall a, b
      ensures (a, b) in EdgesFrom(r, ps) <==> (b, a) in EdgesFrom(g, ps)
    {
      assert a in g ==> (b in Succ(r, a) <==> b in g && a in g[b]);
      assert b in g ==> Succ(g, b) <= g.Keys;
    }
    forall e
      ensures e in Swapped(EdgesFrom(g, ps)) <==> (e.1, e.0) in EdgesFrom(g, ps)
    {
      if (e.1, e.0) in EdgesFrom(g, ps) {
        assert ((e.1, e.0).1, (e.1, e.0).0) == e;
      }
    }
  }

  function Paths(ms: seq<Metrics>): seq<string> {
    seq(|ms|, i requires 0 <= i < |ms| => ms[i].path)
  }

  function Afferent(ms: seq<Metrics>): seq<nat> {
    seq(|ms|, i requires 0 <= i < |ms| => ms[i].ca)
  }

  function Efferent(ms: seq<Metrics>): seq<nat> {
    seq(|ms|, i requires 0 <= i < |ms| => ms[i].ce)
  }

  lemma CouplingIsDegree(g: Graph<string>, ms: seq<Metrics>)
    requires forall i :: 0 <= i < |ms| ==> Measures(g, ms[i])
    ensures Efferent(ms) == Degrees(g, Paths(ms))
    ensures Afferent(ms) == Degrees(TransposeOf(g), Paths(ms))
  {
    forall i | 0 <= i < |ms|
      ensures Efferent(ms)[i] == Degrees(g, Paths(ms))[i]
      ensures Afferent(ms)[i] == Degrees(TransposeOf(g), Paths(ms))[i]
    {
      assert Measures(g, ms[i]);
    }
  }

  /** The Ca values and the Ce values have the same sum. */
  lemma CouplingBalances(g: Graph<string>, ms: seq<Metrics>)
    requires MeasuresAll(g, g.Keys, ms) && Closed(g, g.Keys)
    ensures Sum(Afferent(ms)) == Sum(Efferent(ms))
  {
    hide Measures, Sum, TransposeOf, Closed;
    var ps := Paths(ms);
    forall p
      ensures p in ps <==> p in g
    {
      if p in g {
        var i :| 0 <= i < |ms| && ms[i].path == p;
        assert ps[i] == p;
      }
    }
    CouplingIsDegree(g, ms);
    Balance(g, ps);
  }

  lemma Balance(g: Graph<string>, ps: seq<string>)
    requires Closed(g, g.Keys) && forall p :: p in ps <==> p in g
    requires forall i, j :: 0 <= i < j < |ps| ==> ps[i] != ps[j]
    ensures Sum(Degrees(g, ps)) == Sum(Degrees(TransposeOf(g), ps))
  {
    DegreesCountEdges(g, ps);
    DegreesCountEdges(TransposeOf(g), ps);
    EdgesSwap(g, ps);
    SwapKeepsSize(EdgesFrom(g, ps));
  }

  /** An import a -> b gives b at least one dependent more than a exactly when b does not lead back
      to a; when it does, the two have equally many. */
  lemma ImportRaisesDependentsIff(g: Graph<string>, a: string, b: string)
    requires Edge(g, a, b) && b in g
    ensures |Dependents(g, b)| >= |Dependents(g, a)| + 1 <==> !Reaches(g, b, a)
    ensures Reaches(g, b, a) ==> |Dependents(g, b)| == |Dependents(g, a)|
  {
    EdgeReaches(g, a, b);
    var da, db := Dependents(g, a), Dependents(g, b);
    forall q | Reaches(g, q, a)
      ensures Reaches(g, q, b)
    {
      ReachesTransitive(g, q, a, b);
    }
    if Reaches(g, b, a) {
      forall q | Reaches(g, q, b)
        ensures Reaches(g, q, a)
      {
        ReachesTransitive(g, q, b, a);
      }
      assert da + {a} == db + {b};
      assert |da + {a}| == |da| + 1 && |db + {b}| == |db| + 1;
    } else {
      assert da + {a} <= db;
      assert |da + {a}| == |da| + 1;
      SubsetSize(da + {a}, db);
    }
  }

  /** In particular every import raises the count in an acyclic graph. */
  lemma AcyclicImportRaises(g: Graph<string>, a: string, b: string)
    requires Acyclic(g) && Edge(g, a, b) && b in g
    ensures |Dependents(g, b)| >= |Dependents(g, a)| + 1
  {
    if Reaches(g, b, a) {
      EdgeReaches(g, a, b);
      ReachesTransitive(g, a, b, a);
    }
    ImportRaisesDependentsIff(g, a, b);
  }

  // Quartiles.

  predicate IntLe(a: int, b: int) {
    a <= b
  }

  /** The fractional index of the p-th percentile among n values. */
  function Rank(p: real, n: nat): real {
    (p / 100.0) * (n - 1) as real
  }

  function Interpolate(a: real, b: real, d: real): real {
    a * (1.0 - d) + b * d
  }

  function Percentile(sorted: seq<int>, p: real): real
    requires 0.0 <= p <= 100.0
  {
    if sorted == [] then 0.0
    else
      RankInRange(p, |sorted|);
      var k := Rank(p, |sorted|);
      var f := k.Floor;
      if f + 1 >= |sorted| then sorted[f] as real
      else Interpolate(sorted[f] as real, sorted[f + 1] as real, k - f as real)
  }

  lemma Scale(x: real, y: real, m: real)
    requires x <= y && m >= 0.0
    ensures x * m <= y * m
  {
  }

  lemma RankInRange(p: real, n: nat)
    requires 0.0 <= p <= 100.0 && n >= 1
    ensures 0 <= Rank(p, n).Floor <= n - 1
  {
    var m := (n - 1) as real;
    Scale(0.0, p / 100.0, m);
    Scale(p / 100.0, 1.0, m);
  }

  lemma InterpolateMonotone(a: real, b: real, d: real, e: real)
    requires a <= b && d <= e
    ensures Interpolate(a, b, d) <= Interpolate(a, b, e)
    ensures Interpolate(a, b, 0.0) == a && Interpolate(a, b, 1.0) == b
  {
    Scale(d, e, b - a);
    assert Interpolate(a, b, d) == a + d * (b - a);
    assert Interpolate(a, b, e) == a + e * (b - a);
  }

  /** The interpolated value lies between its two neighbours. */
  lemma PercentileBetween(sorted: seq<int>, p: real)
    requires 0.0 <= p <= 100.0 && sorted != [] && Ordered(IntLe, sorted)
    ensures 0 <= Rank(p, |sorted|).Floor < |sorted|
    ensures var f := Rank(p, |sorted|).Floor;
            sorted[f] as real <= Percentile(sorted, p) <= sorted[if f + 1 < |sorted| then f + 1 else f] as real
  {
    hide Rank, Interpolate, Ordered;
    RankInRange(p, |sorted|);
    var k := Rank(p, |sorted|);
    var f := k.Floor;
    if f + 1 < |sorted| {
      OrderedAt(sorted, f, f + 1);
      InterpolateMonotone(sorted[f] as real, sorted[f + 1] as real, 0.0, k - f as real);
      InterpolateMonotone(sorted[f] as real, sorted[f + 1] as real, k - f as real, 1.0);
    }
  }

  lemma PercentileInRange(sorted: seq<int>, p: real)
    requires 0.0 <= p <= 100.0 && sorted != [] && Ordered(IntLe, sorted)
    ensures sorted[0] as real <= Percentile(sorted, p) <= sorted[|sorted| - 1] as real
  {
    PercentileBetween(sorted, p);
    var f := Rank(p, |sorted|).Floor;
    OrderedAt(sorted, 0, f);
    OrderedAt(sorted, if f + 1 < |sorted| then f + 1 else f, |sorted| - 1);
  }

  lemma OrderedAt(sorted: seq<int>, i: nat, j: nat)
    requires Ordered(IntLe, sorted) && i <= j < |sorted|
    ensures sorted[i] <= sorted[j]
  {
    if i < j {
      assert IntLe(sorted[i], sorted[j]);
    }
  }

  lemma RankMonotone(p: real, q: real, n: nat)
    requires p <= q && n >= 1
    ensures Rank(p, n) <= Rank(q, n)
  {
    var x, y, m := p / 100.0, q / 100.0, (n - 1) as real;
    assert Rank(p, n) == x * m && Rank(q, n) == y * m;
    Scale(x, y, m);
  }

  lemma PercentileMonotone(sorted: seq<int>, p: real, q: real)
    requires 0.0 <= p <= q <= 100.0 && sorted != [] && Ordered(IntLe, sorted)
    ensures Percentile(sorted, p) <= Percentile(sorted, q)
  {
    hide Interpolate, Ordered, Percentile, Rank;
    var n := |sorted|;
    RankMonotone(p, q, n);
    var k, l := Rank(p, n), Rank(q, n);
    PercentileBetween(sorted, p);
    PercentileBetween(sorted, q);
    var f := k.Floor;
    if f < l.Floor {
      OrderedAt(sorted, f + 1, l.Floor);
    } else if f + 1 < n {
      assert l.Floor == f;
      OrderedAt(sorted, f, f + 1);
      PercentileAt(sorted, p, f);
      PercentileAt(sorted, q, f);
      InterpolateMonotone(sorted[f] as real, sorted[f + 1] as real, k - f as real, l - f as real);
    } else {
      PercentileTop(sorted, p);
      PercentileTop(sorted, q);
    }
  }

  lemma PercentileAt(sorted: seq<int>, p: real, f: nat)
    requires 0.0 <= p <= 100.0 && f + 1 < |sorted| && Rank(p, |sorted|).Floor == f
    ensures Percentile(sorted, p) == Interpolate(sorted[f] as real, sorted[f + 1] as real, Rank(p,
          |sorted|) - f as real)
  {
    hide Interpolate, Rank;
  }

  lemma PercentileTop(sorted: seq<int>, p: real)
    requires 0.0 <= p <= 100.0 && sorted != [] && Rank(p, |sorted|).Floor == |sorted| - 1
    ensures Percentile(sorted, p) == sorted[|sorted| - 1] as real
  {
    hide Interpolate, Rank;
  }

  const IQR_ZERO_FLOOR := 3.0

  /** blastThreshold. */
  function Threshold(sorted: seq<int>): Option<real> {
    if sorted == [] then None
    else
      var q1, q3 := Percentile(sorted, 25.0), Percentile(sorted, 75.0);
      var iqr := q3 - q1;
      if iqr == 0.0 then
        var max := sorted[|sorted| - 1] as real;
        if max <= q3 || max < IQR_ZERO_FLOOR then None else Some(q3)
      else
        var t := q3 + 1.5 * iqr;
        if t < 2.0 then Some(2.0) else Some(t)
  }

  lemma ThresholdAboveQ3(sorted: seq<int>)
    requires Ordered(IntLe, sorted) && Threshold(sorted).Some?
    ensures Threshold(sorted).value >= Percentile(sorted, 75.0)
  {
    PercentileMonotone(sorted, 25.0, 75.0);
  }

  // The threshold in whole numbers.

  /** Four times the j-th quartile: at j(n - 1) = 4f + r the weighted mean of the values at f and
      f + 1. */
  function Quartile4(sorted: seq<int>, j: nat): int
    requires sorted != [] && j <= 3
  {
    var n := |sorted| - 1;
    var f, r := j * n / 4, j * n % 4;
    if r == 0 then 4 * sorted[f] else (4 - r) * sorted[f] + r * sorted[f + 1]
  }

  /** More than one and a half interquartile ranges above the third quartile, and above two; when
      the quartiles coincide, above them, if some value is three or more. */
  predicate Outlier(sorted: seq<int>, d: int) {
    sorted != [] &&
    var a, b := Quartile4(sorted, 1), Quartile4(sorted, 3);
    if a < b then d > 2 && 2 * (4 * d - b) > 3 * (b - a) else 4 * d > b && sorted[|sorted| - 1] >= 3
  }

  lemma QuartileRank(j: nat, n: nat)
    requires n >= 1 && j <= 3
    ensures var k := Rank(25.0 * j as real, n);
            k.Floor == j * (n - 1) / 4 && 4.0 * (k - k.Floor as real) == (j * (n - 1) % 4) as real
  {
    var m := j * (n - 1);
    var k := Rank(25.0 * j as real, n);
    assert k == (j as real / 4.0) * (n - 1) as real;
    assert 4.0 * k == m as real by {
      assert (j as real) * ((n - 1) as real) == m as real;
    }
    assert m == 4 * (m / 4) + m % 4;
  }

  lemma QuartileIs(sorted: seq<int>, j: nat)
    requires sorted != [] && j <= 3
    ensures 4.0 * Percentile(sorted, 25.0 * j as real) == Quartile4(sorted, j) as real
  {
    hide Rank, Interpolate;
    var n := |sorted| - 1;
    var p := 25.0 * j as real;
    QuartileRank(j, |sorted|);
    RankInRange(p, |sorted|);
    var k := Rank(p, |sorted|);
    var f, r := j * n / 4, j * n % 4;
    if f + 1 >= |sorted| {
      assert f == n;
      LastQuartile(j, n);
      PercentileTop(sorted, p);
    } else {
      PercentileAt(sorted, p, f);
      Quarters(sorted[f] as real, sorted[f + 1] as real, k - f as real, r);
    }
  }

  lemma LastQuartile(j: nat, n: nat)
    requires j <= 3 && j * n / 4 == n
    ensures j * n % 4 == 0
  {
    assert j * n <= 3 * n;
  }

  lemma Quarters(x: real, y: real, d: real, r: nat)
    requires 4.0 * d == r as real
    ensures 4.0 * Interpolate(x, y, d) == (4 - r) as real * x + r as real * y
  {
    assert 4.0 * Interpolate(x, y, d) == x * (4.0 - 4.0 * d) + y * (4.0 * d);
  }

  /** Exactly which counts exceed the threshold. */
  lemma OutlierIff(sorted: seq<int>, d: int)
    requires Ordered(IntLe, sorted) && d in sorted
    ensures (Threshold(sorted).Some? && d as real > Threshold(sorted).value) <==> Outlier(sorted, d)
  {
    hide Percentile, Quartile4, Ordered;
    QuartileIs(sorted, 1);
    QuartileIs(sorted, 3);
    PercentileMonotone(sorted, 25.0, 75.0);
    var i :| 0 <= i < |sorted| && sorted[i] == d;
    OrderedAt(sorted, i, |sorted| - 1);
  }

  function CountAbove(xs: seq<int>, t: real): nat {
    if xs == [] then 0 else (if xs[0] as real > t then 1 else 0) + CountAbove(xs[1..], t)
  }

  lemma {:induction false} CountAboveBound(xs: seq<int>, t: real, f: nat)
    requires f <= |xs| && forall i :: 0 <= i < f ==> xs[i] as real <= t
    ensures CountAbove(xs, t) <= |xs| - f
  {
    if xs != [] {
      CountAboveBound(xs[1..], t, if f == 0 then 0 else f - 1);
    }
  }

  lemma {:induction false} CountAboveInsert(x: int, xs: seq<int>, t: real)
    ensures CountAbove(Insert(IntLe, x, xs), t) == CountAbove([x] + xs, t)
  {
    assert ([x] + xs)[1..] == xs;
    if xs != [] && !IntLe(x, xs[0]) {
      CountAboveInsert(x, xs[1..], t);
      var r := Insert(IntLe, x, xs[1..]);
      assert ([xs[0]] + r)[1..] == r;
      assert ([x] + xs[1..])[1..] == xs[1..];
    }
  }

  lemma {:induction false} CountAboveSort(xs: seq<int>, t: real)
    ensures CountAbove(Sort(IntLe, xs), t) == CountAbove(xs, t)
  {
    if xs != [] {
      CountAboveSort(xs[1..], t);
      CountAboveInsert(xs[0], Sort(IntLe, xs[1..]), t);
      assert ([xs[0]] + Sort(IntLe, xs[1..]))[1..] == Sort(IntLe, xs[1..]);
    }
  }

  lemma ThirdQuartileRank(n: nat)
    requires n >= 1
    ensures Rank(75.0, n).Floor == (3 * (n - 1)) / 4
  {
    assert Rank(75.0, n) == 0.75 * (n - 1) as real;
  }

  lemma ThresholdNeedsData(sorted: seq<int>)
    requires Threshold(sorted).Some?
    ensures sorted != []
  {
  }

  /** Whatever the counts are, at most a quarter of the n packages, ceil((n - 1) / 4), lie above
      the threshold. */
  lemma AtMostAQuarterAbove(xs: seq<int>)
    ensures var t := Threshold(Sort(IntLe, xs)); t.Some? ==> CountAbove(xs, t.value) <= (|xs| + 2) / 4
  {
    hide Threshold, Percentile, Rank, CountAbove, Sort;
    var s := Sort(IntLe, xs);
    if Threshold(s).Some? {
      var t := Threshold(s).value;
      ThresholdNeedsData(s);
      SortOrdered(IntLe, xs);
      ThresholdAboveQ3(s);
      PercentileBetween(s, 75.0);
      var f := Rank(75.0, |s|).Floor;
      forall i | 0 <= i < f + 1
        ensures s[i] as real <= t
      {
        OrderedAt(s, i, f);
      }
      CountAboveBound(s, t, f + 1);
      CountAboveSort(xs, t);
      ThirdQuartileRank(|s|);
    }
  }

  /** When the quartiles coincide a threshold is only returned if some package exceeds it. */
  lemma ZeroSpreadFlagsSome(xs: seq<int>)
    ensures var s := Sort(IntLe, xs);
            Threshold(s).Some? && Percentile(s, 25.0) == Percentile(s, 75.0) ==> CountAbove(xs, Threshold(s).value) >= 1
  {
    hide Sort, CountAbove;
    var s := Sort(IntLe, xs);
    if Threshold(s).Some? && Percentile(s, 25.0) == Percentile(s, 75.0) {
      CountAboveSort(xs, Threshold(s).value);
      LastAbove(s, Threshold(s).value);
    }
  }

  lemma {:induction false} LastAbove(xs: seq<int>, t: real)
    requires xs != [] && xs[|xs| - 1] as real > t
    ensures CountAbove(xs, t) >= 1
  {
    if |xs| > 1 {
      LastAbove(xs[1..], t);
    }
  }

  // The rule.

  datatype Hotspot = Hotspot(file: string, metrics: Metrics)

  datatype Outcome = Notice(rule: Rule) | Hotspots(found: seq<Hotspot>)

  function Counts(ms: seq<Metrics>): (xs: seq<int>)
    ensures |xs| == |ms|
  {
    seq(|ms|, i requires 0 <= i < |ms| => ms[i].dependents)
  }

  predicate ByFile(a: Hotspot, b: Hotspot) {
    LessEq(a.file, b.file)
  }

  lemma ByFileOrder()
    ensures TotalPreorder(ByFile)
  {
    StringOrder();
    forall a: Hotspot, b: Hotspot
      ensures ByFile(a, b) || ByFile(b, a)
    {
      Order(LessEq, a.file, b.file, b.file);
    }
    forall a: Hotspot, b: Hotspot, c: Hotspot | ByFile(a, b) && ByFile(b, c)
      ensures ByFile(a, c)
    {
      Order(LessEq, a.file, b.file, c.file);
    }
  }

  ghost predicate FilesIncrease(hs: seq<Hotspot>) {
    forall i, j :: 0 <= i < j < |hs| ==> Less(hs[i].file, hs[j].file)
  }

  lemma {:induction false} CountAboveAppend(xs: seq<int>, x: int, t: real)
    ensures CountAbove(xs + [x], t) == CountAbove(xs, t) + if x as real > t then 1 else 0
  {
    if xs == [] {
      assert xs + [x] == [x];
    } else {
      CountAboveAppend(xs[1..], x, t);
      assert (xs + [x])[1..] == xs[1..] + [x];
    }
  }

  predicate DistinctPaths(ms: seq<Metrics>) {
    forall i, j :: 0 <= i < j < |ms| ==> ms[i].path != ms[j].path
  }

  predicate Flagged(ctx: Context, threshold: real, h: Hotspot) {
    h.metrics.dependents as real > threshold && h.file == RelativePath(h.metrics.path, ctx.moduleName)
  }

  /** The loop that keeps the metrics above the threshold. */
  method Flag(ctx: Context, ms: seq<Metrics>, threshold: real) returns (hs: seq<Hotspot>)
    requires DistinctPaths(ms)
    ensures forall h :: h in hs <==> h.metrics in ms && Flagged(ctx, threshold, h)
    ensures |hs| == CountAbove(Counts(ms), threshold)
    ensures forall i, j :: 0 <= i < j < |hs| ==> hs[i].metrics.path != hs[j].metrics.path
  {
    hs := [];
    for n := 0 to |ms|
      invariant forall h :: h in hs <==> h.metrics in ms[..n] && Flagged(ctx, threshold, h)
      invariant |hs| == CountAbove(Counts(ms[..n]), threshold)
      invariant forall i, j :: 0 <= i < j < |hs| ==> hs[i].metrics.path != hs[j].metrics.path
    {
      var m := ms[n];
      assert ms[..n + 1] == ms[..n] + [m];
      assert Counts(ms[..n + 1]) == Counts(ms[..n]) + [m.dependents];
      CountAboveAppend(Counts(ms[..n]), m.dependents, threshold);
      forall i | 0 <= i < |hs|
        ensures hs[i].metrics.path != m.path
      {
        assert hs[i] in hs && hs[i].metrics in ms[..n];
      }
      if m.dependents as real > threshold {
        hs := hs + [Hotspot(RelativePath(m.path, ctx.moduleName), m)];
      }
    }
    assert ms[..|ms|] == ms;
  }

  /** What a run reports, given its metrics in the order the map range produced them. */
  ghost predicate Reports(ctx: Context, ms: seq<Metrics>, hs: seq<Hotspot>) {
    && MeasuresAll(ImportGraph(ctx), InternalSet(ctx), ms)
    && FilesIncrease(hs)
    && forall h :: h in hs <==>
         && h.metrics in ms && Outlier(Sort(IntLe, Counts(ms)), h.metrics.dependents)
         && h.file == RelativePath(h.metrics.path, ctx.moduleName)
  }

  /** The flags at a threshold are the outliers; without one there are none. */
  lemma OutliersAreFlagged(ctx: Context, ms: seq<Metrics>, h: Hotspot)
    requires h.metrics in ms
    ensures var t := Threshold(Sort(IntLe, Counts(ms)));
            (t.Some? && Flagged(ctx, t.value, h)) <==>
              Outlier(Sort(IntLe, Counts(ms)), h.metrics.dependents) && h.file == RelativePath(h.metrics.path, ctx.moduleName)
  {
    hide Sort, Threshold, Outlier, Ordered, RelativePath;
    var s := Sort(IntLe, Counts(ms));
    SortOrdered(IntLe, Counts(ms));
    var i :| 0 <= i < |ms| && ms[i] == h.metrics;
    assert Counts(ms)[i] == h.metrics.dependents;
    SameMembers(s, Counts(ms));
    OutlierIff(s, h.metrics.dependents);
  }

  predicate Applies(ctx: Context) {
    ModuleMatches(ctx) && HasInternal(ctx)
  }

  /** BlastRadius.Check: silent below five packages, otherwise exactly the packages whose number of
      transitive dependents is an outlier, in file order, and never more than
      ceil((n - 1) / 4) of n. */
  method Check(ctx: Context) returns (out: Outcome, ghost ms: seq<Metrics>)
    ensures out.Notice? <==> !Applies(ctx)
    ensures out.Notice? ==> out.rule == if ModuleMatches(ctx) then MetaLayoutNotSupported else MetaNoMatchingPackages
    ensures out.Hotspots? && |InternalSet(ctx)| < 5 ==> out.found == []
    ensures out.Hotspots? && |InternalSet(ctx)| >= 5 ==> Reports(ctx, ms, out.found)
    ensures out.Hotspots? ==> |out.found| <= (|InternalSet(ctx)| + 2) / 4
  {
    hide ImportGraph, InternalSet, Threshold, Measures, Ordered, ExcludedPackage, InternalPrefix, Outlier, Flagged, RelativePath;
    ms := [];
    if !ModuleMatches(ctx) {
      return Notice(MetaNoMatchingPackages), ms;
    }
    if !HasInternal(ctx) {
      return Notice(MetaLayoutNotSupported), ms;
    }
    var internal := CollectInternal(ctx);
    if |internal| < 5 {
      return Hotspots([]), ms;
    }
    var forward := BuildForward(ctx, internal);
    GraphShape(ctx);
    var reverse := BuildReverse(internal, forward);
    var metrics := CollectMetrics(internal, forward, reverse);
    ms := metrics;
    var sorted := Sort(IntLe, Counts(metrics));
    MetricsSize(forward, internal, ms);
    var threshold := Threshold(sorted);
    forall h: Hotspot | h.metrics in ms
      ensures (threshold.Some? && Flagged(ctx, threshold.value, h)) <==>
        Outlier(sorted, h.metrics.dependents) && h.file == RelativePath(h.metrics.path, ctx.moduleName)
    {
      OutliersAreFlagged(ctx, ms, h);
    }
    if threshold.None? {
      return Hotspots([]), ms;
    }
    var found := Flag(ctx, metrics, threshold.value);
    AtMostAQuarterAbove(Counts(metrics));
    FilesDistinct(ctx, ms, threshold.value, found);
    out := Hotspots(Sort(ByFile, found));
    SameMembers(out.found, found);
  }

  lemma SameMembers<T>(a: seq<T>, b: seq<T>)
    requires multiset(a) == multiset(b)
    ensures forall x :: x in a <==> x in b
  {
    assert forall x :: x in a <==> x in multiset(a);
    assert forall x :: x in b <==> x in multiset(b);
  }

  lemma GraphShape(ctx: Context)
    ensures ImportGraph(ctx).Keys == InternalSet(ctx) && Closed(ImportGraph(ctx), InternalSet(ctx))
  {
    hide InternalSet, LastImports;
  }

  lemma MetricsSize(g: Graph<string>, nodes: set<string>, ms: seq<Metrics>)
    requires MeasuresAll(g, nodes, ms)
    ensures |ms| == |nodes|
  {
    hide Measures;
    var paths := seq(|ms|, i requires 0 <= i < |ms| => ms[i].path);
    PathsCount(paths);
    forall p
      ensures p in nodes <==> p in paths
    {
      if p in nodes {
        var i :| 0 <= i < |ms| && ms[i].path == p;
        assert paths[i] == p;
      }
    }
    assert nodes == set p | p in paths;
  }

  lemma {:induction false} PathsCount(xs: seq<string>)
    requires forall i, j :: 0 <= i < j < |xs| ==> xs[i] != xs[j]
    ensures |set x | x in xs| == |xs|
  {
    if xs != [] {
      var x, t := xs[0], xs[1..];
      forall i, j | 0 <= i < j < |t|
        ensures t[i] != t[j]
      {
        assert xs[i + 1] != xs[j + 1];
      }
      PathsCount(t);
      var rest := set y | y in t;
      forall i | 0 <= i < |t|
        ensures t[i] != x
      {
        assert xs[0] != xs[i + 1];
      }
      assert xs == [x] + t;
      assert (set y | y in xs) == {x} + rest;
    }
  }

  lemma RelativeInjective(ctx: Context, p: string, q: string)
    requires p in InternalSet(ctx) && q in InternalSet(ctx)
    requires RelativePath(p, ctx.moduleName) == RelativePath(q, ctx.moduleName) && ctx.moduleName != ""
    ensures p == q
  {
    var m := ctx.moduleName + "/";
    UnderModule(ctx, p);
    UnderModule(ctx, q);
    assert p == m + p[|m|..] && q == m + q[|m|..];
  }

  lemma UnderModule(ctx: Context, p: string)
    requires p in InternalSet(ctx)
    ensures HasPrefix(p, ctx.moduleName + "/") && p != ctx.moduleName && p != ""
  {
    var m := ctx.moduleName + "/";
    assert InternalPrefix(ctx) == m + (ctx.arch.layout.internalRoot + "/");
    assert InternalPrefix(ctx)[..|m|] == m;
    assert m <= InternalPrefix(ctx) <= p;
  }

  lemma FilesDistinct(ctx: Context, ms: seq<Metrics>, threshold: real, hs: seq<Hotspot>)
    requires MeasuresAll(ImportGraph(ctx), InternalSet(ctx), ms) && ctx.moduleName != ""
    requires forall h :: h in hs ==> h.metrics in ms && Flagged(ctx, threshold, h)
    requires forall i, j :: 0 <= i < j < |hs| ==> hs[i].metrics.path != hs[j].metrics.path
    ensures FilesIncrease(Sort(ByFile, hs))
  {
    hide Measures, InternalSet, RelativePath;
    var s := Sort(ByFile, hs);
    ByFileOrder();
    SortOrdered(ByFile, hs);
    SameMembers(s, hs);
    DistinctCount(hs);
    assert forall x :: x in s ==> multiset(s)[x] == multiset(hs)[x] == 1;
    DistinctCount(s);
    forall i, j | 0 <= i < j < |s|
      ensures Less(s[i].file, s[j].file)
    {
      assert ByFile(s[i], s[j]);
      assert s[i] in s && s[j] in s;
      assert s[i] in hs && s[j] in hs;
      LessTotal(s[i].file, s[j].file);
      if s[i].file == s[j].file {
        HotspotByFile(ctx, ms, threshold, s[i], s[j]);
      }
    }
  }

  lemma HotspotByFile(ctx: Context, ms: seq<Metrics>, threshold: real, a: Hotspot, b: Hotspot)
    ensures
      && MeasuresAll(ImportGraph(ctx), InternalSet(ctx), ms) && ctx.moduleName != ""
      && a.metrics in ms && b.metrics in ms && Flagged(ctx, threshold, a) && Flagged(ctx, threshold, b)
      && a.file == b.file
      ==> a == b
  {
    hide Measures, InternalSet, ImportGraph, RelativePath;
    var p, q := a.metrics.path, b.metrics.path;
    if p in InternalSet(ctx) && q in InternalSet(ctx) && ctx.moduleName != "" &&
        RelativePath(p, ctx.moduleName) == RelativePath(q, ctx.moduleName) {
      RelativeInjective(ctx, p, q);
    }
  }

  // Independence of the map range order.

  lemma {:induction false} CountsOfPermutation(a: seq<Metrics>, b: seq<Metrics>)
    requires multiset(a) == multiset(b)
    ensures multiset(Counts(a)) == multiset(Counts(b))
    decreases |a|
  {
    if a == [] {
      SameSize(a, b);
    } else {
      hide Counts;
      var k := SharedElement(a, b);
      CountsOfPermutation(a[..0] + a[1..], b[..k] + b[k + 1..]);
      CountsWithout(a, 0);
      CountsWithout(b, k);
      WithOne(Counts(a), Counts(b), a[0].dependents);
    }
  }

  lemma CountsWithout(ms: seq<Metrics>, k: nat)
    requires k < |ms|
    ensures multiset(Counts(ms[..k] + ms[k + 1..])) == multiset(Counts(ms)) - multiset{ms[k].dependents}
    ensures ms[k].dependents in Counts(ms)
  {
    var c := Counts(ms);
    RemoveAt(c, k);
    assert c[k] == ms[k].dependents;
    assert Counts(ms[..k] + ms[k + 1..]) == c[..k] + c[k + 1..];
  }

  lemma WithOne(a: seq<int>, b: seq<int>, x: int)
    requires x in a && x in b && multiset(a) - multiset{x} == multiset(b) - multiset{x}
    ensures multiset(a) == multiset(b)
  {
    assert x in multiset(a) && x in multiset(b);
    assert multiset(a) == (multiset(a) - multiset{x}) + multiset{x};
    assert multiset(b) == (multiset(b) - multiset{x}) + multiset{x};
  }

  lemma MeasuredOnce(g: Graph<string>, nodes: set<string>, a: seq<Metrics>, b: seq<Metrics>)
    requires MeasuresAll(g, nodes, a) && MeasuresAll(g, nodes, b)
    ensures multiset(a) == multiset(b)
  {
    MeasuredIn(g, nodes, a, b);
    MeasuredIn(g, nodes, b, a);
    DistinctCount(a);
    DistinctCount(b);
    forall m
      ensures multiset(a)[m] == multiset(b)[m]
    {
      assert m in a <==> m in multiset(a);
      assert m in b <==> m in multiset(b);
    }
  }

  lemma MeasuredIn(g: Graph<string>, nodes: set<string>, a: seq<Metrics>, b: seq<Metrics>)
    requires MeasuresAll(g, nodes, a) && MeasuresAll(g, nodes, b)
    ensures forall m :: m in a ==> m in b
    ensures forall i, j :: 0 <= i < j < |a| ==> a[i] != a[j]
  {
    forall m | m in a
      ensures m in b
    {
      var i :| 0 <= i < |a| && a[i] == m;
      assert m.path in nodes;
      var j :| 0 <= j < |b| && b[j].path == m.path;
      assert Measures(g, a[i]) && Measures(g, b[j]);
    }
  }

  lemma {:induction false} HotspotListUnique(a: seq<Hotspot>, b: seq<Hotspot>)
    requires FilesIncrease(a) && FilesIncrease(b) && forall h :: h in a <==> h in b
    ensures a == b
  {
    var fa, fb := seq(|a|, i requires 0 <= i < |a| => a[i].file), seq(|b|, i requires 0 <= i < |b| => b[i].file);
    ByFileOrder();
    FilesDistinctCount(a);
    FilesDistinctCount(b);
    forall h
      ensures multiset(a)[h] == multiset(b)[h]
    {
      assert h in a <==> h in multiset(a);
      assert h in b <==> h in multiset(b);
    }
    OrderedUnique(ByFile, a, b);
  }

  lemma FilesDistinctCount(a: seq<Hotspot>)
    requires FilesIncrease(a)
    ensures forall h :: h in a ==> multiset(a)[h] == 1
    ensures Ordered(ByFile, a) && NoTies(ByFile, a)
  {
    forall i, j | 0 <= i < j < |a|
      ensures a[i] != a[j] && ByFile(a[i], a[j]) && !ByFile(a[j], a[i])
    {
      LessTotal(a[i].file, a[j].file);
    }
    DistinctCount(a);
  }

  /** Two runs that meet the specification report the same list, whatever order Go's map ranges
      took in either. */
  lemma ReportIsDetermined(ctx: Context, ms: seq<Metrics>, hs: seq<Hotspot>, ms': seq<Metrics>, hs': seq<Hotspot>)
    requires Reports(ctx, ms, hs) && Reports(ctx, ms', hs')
    ensures hs == hs'
  {
    hide ImportGraph, InternalSet, MeasuresAll, Outlier, RelativePath;
    MeasuredOnce(ImportGraph(ctx), InternalSet(ctx), ms, ms');
    CountsOfPermutation(ms, ms');
    SortedCountsEqual(Counts(ms), Counts(ms'));
    SameMembers(ms, ms');
    HotspotListUnique(hs, hs');
  }

  lemma SortedCountsEqual(a: seq<int>, b: seq<int>)
    requires multiset(a) == multiset(b)
    ensures Sort(IntLe, a) == Sort(IntLe, b)
  {
    SortOrdered(IntLe, a);
    SortOrdered(IntLe, b);
    OrderedUnique(IntLe, Sort(IntLe, a), Sort(IntLe, b));
  }
}
