/** Which of several cycles the search reports, and when the order of its sources matters. */
module CycleOrder {
  import opened Architecture
  import opened Digraph
  import opened GoStrings
  import opened Options
  import opened Sorting

  /** v is on a cycle or leads to one. */
  ghost predicate LeadsToCycle(g: Graph<string>, v: string) {
    exists u :: (u == v || Reaches(g, v, u)) && Reaches(g, u, u)
  }

  lemma HarmlessStep(g: Graph<string>, v: string, w: string)
    requires Edge(g, v, w) && !LeadsToCycle(g, v)
    ensures !LeadsToCycle(g, w)
  {
    EdgeReaches(g, v, w);
    if u :| (u == w || Reaches(g, w, u)) && Reaches(g, u, u) {
      if u != w {
        ReachesTransitive(g, v, w, u);
      }
    }
  }

  lemma HarmlessFromSteps(g: Graph<string>, v: string)
    requires forall w :: Edge(g, v, w) ==> !LeadsToCycle(g, w)
    ensures !LeadsToCycle(g, v)
  {
    if u :| (u == v || Reaches(g, v, u)) && Reaches(g, u, u) {
      var w := ReachesFirstStep(g, v, u);
      assert LeadsToCycle(g, w);
    }
  }

  lemma NoEdgeBack(g: Graph<string>, v: string, w: string)
    requires Edge(g, v, w) && (w == v || Reaches(g, w, v))
    ensures LeadsToCycle(g, v)
  {
    EdgeReaches(g, v, w);
    if w != v {
      ReachesTransitive(g, v, w, v);
    }
  }

  // What exploring a harmless node does.

  /** The gray nodes that lead to no cycle lead to this one. */
  ghost predicate GrayAbove(g: Graph<string>, color: map<string, Color>, node: string) {
    forall m :: ColorIn(color, m) == Gray && !LeadsToCycle(g, m) ==> m == node || Reaches(g, m, node)
  }

  /** The colors differ at most in which harmless nodes are white and which are black. */
  ghost predicate OnlyHarmless(g: Graph<string>, c: map<string, Color>, d: map<string, Color>, but: string) {
    && (forall m :: LeadsToCycle(g, m) ==> ColorIn(c, m) == ColorIn(d, m))
    && (forall m :: m != but ==> (ColorIn(c, m) == Gray <==> ColorIn(d, m) == Gray))
  }

  /** It ends without a cycle and touches no node that leads to one. */
  lemma {:induction false} ExploreHarmless(direction: map<string, seq<string>>, color: map<string, Color>, stack: seq<string>,
      node: string)
    requires Painted(color) && node !in color && node in Nodes(Adjacency(direction))
    requires !LeadsToCycle(Adjacency(direction), node) && GrayAbove(Adjacency(direction), color, node)
    ensures var r := Explore(direction, color, stack, node);
            r.0 == None && OnlyHarmless(Adjacency(direction), color, r.1, node) && ColorIn(r.1, node) == Black
    decreases Nodes(Adjacency(direction)) - color.Keys, 0
  {
    hide LeadsToCycle, Reaches;
    assert node in Nodes(Adjacency(direction)) - color.Keys && node in color[node := Gray].Keys;
    TargetsHarmless(direction, color[node := Gray], stack + [node], node, 0);
  }

  lemma {:induction false} TargetsHarmless(direction: map<string, seq<string>>, color: map<string, Color>, stack: seq<string>,
      node: string, i: nat)
    requires Painted(color) && i <= |Targets(direction, node)|
    requires !LeadsToCycle(Adjacency(direction), node) && GrayAbove(Adjacency(direction), color, node)
    ensures var r := ExploreTargets(direction, color, stack, node, i);
            r.0 == None && OnlyHarmless(Adjacency(direction), color, r.1, node) && ColorIn(r.1, node) == Black
    decreases Nodes(Adjacency(direction)) - color.Keys, 1 + |Targets(direction, node)| - i
  {
    hide LeadsToCycle, Reaches, Nodes;
    var g := Adjacency(direction);
    if i < |Targets(direction, node)| {
      var next := Targets(direction, node)[i];
      assert Edge(g, node, next);
      HarmlessStep(g, node, next);
      TargetIsNode(g, node, next);
      match ColorIn(color, next) {
        case Gray =>
          NoEdgeBack(g, node, next);
        case Black =>
          TargetsHarmless(direction, color, stack, node, i + 1);
        case White =>
          GrayAboveNext(g, color, node, next);
          ExploreHarmless(direction, color, stack, next);
          var below := Explore(direction, color, stack, next);
          TargetsHarmless(direction, below.1, stack, node, i + 1);
      }
    }
  }

  lemma GrayAboveNext(g: Graph<string>, color: map<string, Color>, node: string, next: string)
    requires GrayAbove(g, color, node) && Edge(g, node, next)
    ensures GrayAbove(g, color, next)
  {
    hide LeadsToCycle, Reaches;
    EdgeReaches(g, node, next);
    forall m | ColorIn(color, m) == Gray && !LeadsToCycle(g, m)
      ensures m == next || Reaches(g, m, next)
    {
      if m != node {
        ReachesTransitive(g, m, node, next);
      }
    }
  }

  // Two searches that differ in what harmless nodes they have behind them.

  ghost predicate Alike(g: Graph<string>, c: map<string, Color>, d: map<string, Color>) {
    && (forall m :: LeadsToCycle(g, m) ==> ColorIn(c, m) == ColorIn(d, m))
    && (forall m :: !LeadsToCycle(g, m) ==> ColorIn(c, m) != Gray && ColorIn(d, m) != Gray)
  }

  lemma AlikeSwap(g: Graph<string>, c: map<string, Color>, d: map<string, Color>)
    requires Alike(g, c, d)
    ensures Alike(g, d, c)
    ensures forall m :: !LeadsToCycle(g, m) ==> ColorIn(c, m) != Gray && ColorIn(d, m) != Gray
  {
    hide LeadsToCycle;
  }

  /** They find the same. */
  lemma {:induction false} ExploreAlike(direction: map<string, seq<string>>, c: map<string, Color>, d: map<string, Color>,
      stack: seq<string>, node: string)
    requires Painted(c) && Painted(d) && node !in c && node !in d && node in Nodes(Adjacency(direction))
    requires LeadsToCycle(Adjacency(direction), node) && Alike(Adjacency(direction), c, d)
    ensures var r, s := Explore(direction, c, stack, node), Explore(direction, d, stack, node);
            r.0 == s.0 && (r.0 == None ==> Alike(Adjacency(direction), r.1, s.1))
    decreases Nodes(Adjacency(direction)) - c.Keys, Nodes(Adjacency(direction)) - d.Keys, 0, 0
  {
    hide LeadsToCycle, Reaches;
    assert node in Nodes(Adjacency(direction)) - c.Keys && node in c[node := Gray].Keys;
    TargetsAlike(direction, c[node := Gray], d[node := Gray], stack + [node], node, 0);
  }

  lemma {:induction false} TargetsAlike(direction: map<string, seq<string>>, c: map<string, Color>, d: map<string, Color>,
      stack: seq<string>, node: string, i: nat)
    requires Painted(c) && Painted(d) && i <= |Targets(direction, node)|
    requires LeadsToCycle(Adjacency(direction), node) && Alike(Adjacency(direction), c, d)
    ensures var r, s := ExploreTargets(direction, c, stack, node, i), ExploreTargets(direction, d, stack, node, i);
            r.0 == s.0 && (r.0 == None ==> Alike(Adjacency(direction), r.1, s.1))
    decreases Nodes(Adjacency(direction)) - c.Keys, Nodes(Adjacency(direction)) - d.Keys, 1 + |Targets(direction, node)| - i, 1
  {
    hide LeadsToCycle, Reaches, Nodes, CycleAt, Alike, Explore, PastHarmless;
    var g := Adjacency(direction);
    if i == |Targets(direction, node)| {
      AlikeBlack(g, c, d, node);
    } else {
      hide ExploreTargets;
      var next := Targets(direction, node)[i];
      assert Edge(g, node, next);
      TargetIsNode(g, node, next);
      if LeadsToCycle(g, next) {
        AlikeColor(g, c, d, next);
        LeadingTarget(direction, c, d, stack, node, i);
      } else {
        PastHarmlessTarget(direction, c, d, stack, node, i);
        TargetsAlike(direction, PastHarmless(direction, c, stack, next), PastHarmless(direction, d, stack, next), stack, node, i + 1);
      }
    }
  }

  lemma AlikeBlack(g: Graph<string>, c: map<string, Color>, d: map<string, Color>, node: string)
    requires Alike(g, c, d)
    ensures Alike(g, c[node := Black], d[node := Black])
  {
    hide LeadsToCycle;
  }

  lemma AlikeColor(g: Graph<string>, c: map<string, Color>, d: map<string, Color>, m: string)
    requires Alike(g, c, d) && LeadsToCycle(g, m)
    ensures ColorIn(c, m) == ColorIn(d, m)
  {
    hide LeadsToCycle;
  }

  /** A target that leads to a cycle has the same color in both searches. */
  lemma {:induction false} LeadingTarget(direction: map<string, seq<string>>, c: map<string, Color>, d: map<string, Color>,
      stack: seq<string>, node: string, i: nat)
    requires Painted(c) && Painted(d) && i < |Targets(direction, node)|
    requires LeadsToCycle(Adjacency(direction), node) && Alike(Adjacency(direction), c, d)
    requires var next := Targets(direction, node)[i];
             && next in Nodes(Adjacency(direction)) && LeadsToCycle(Adjacency(direction), next)
             && ColorIn(c, next) == ColorIn(d, next)
    ensures var r, s := ExploreTargets(direction, c, stack, node, i), ExploreTargets(direction, d, stack, node, i);
            r.0 == s.0 && (r.0 == None ==> Alike(Adjacency(direction), r.1, s.1))
    decreases Nodes(Adjacency(direction)) - c.Keys, Nodes(Adjacency(direction)) - d.Keys, 1 + |Targets(direction, node)| - i, 0
  {
    hide LeadsToCycle, Reaches, Nodes, CycleAt, Alike, Adjacency, Explore;
    var next := Targets(direction, node)[i];
    if ColorIn(c, next) == White {
      ExploreAlike(direction, c, d, stack, next);
      var r, s := Explore(direction, c, stack, next), Explore(direction, d, stack, next);
      if r.0 == None {
        TargetsAlike(direction, r.1, s.1, stack, node, i + 1);
      }
    } else if ColorIn(c, next) == Black {
      TargetsAlike(direction, c, d, stack, node, i + 1);
    }
  }

  /** A harmless target changes neither the likeness nor what is found. */
  lemma PastHarmlessTarget(direction: map<string, seq<string>>, c: map<string, Color>, d: map<string, Color>,
      stack: seq<string>, node: string, i: nat)
    requires Painted(c) && Painted(d) && i < |Targets(direction, node)| && Alike(Adjacency(direction), c, d)
    requires var next := Targets(direction, node)[i];
             next in Nodes(Adjacency(direction)) && !LeadsToCycle(Adjacency(direction), next)
    ensures var next := Targets(direction, node)[i];
            var r, s := PastHarmless(direction, c, stack, next), PastHarmless(direction, d, stack, next);
            && Alike(Adjacency(direction), r, s)
            && ExploreTargets(direction, c, stack, node, i) == ExploreTargets(direction, r, stack, node, i + 1)
            && ExploreTargets(direction, d, stack, node, i) == ExploreTargets(direction, s, stack, node, i + 1)
  {
    hide LeadsToCycle, Reaches, Nodes, ExploreTargets, Explore, Alike, PastHarmless;
    var g, next := Adjacency(direction), Targets(direction, node)[i];
    var r, s := PastHarmless(direction, c, stack, next), PastHarmless(direction, d, stack, next);
    AlikeSwap(g, c, d);
    PastHarmlessKeeps(direction, c, d, stack, next);
    AlikeSwap(g, r, d);
    PastHarmlessKeeps(direction, d, r, stack, next);
    AlikeSwap(g, s, r);
    SkipsHarmless(direction, c, stack, node, i);
    SkipsHarmless(direction, d, stack, node, i);
  }

  /** The colors after a harmless target. */
  function PastHarmless(direction: map<string, seq<string>>, color: map<string, Color>, stack: seq<string>, next: string)
    : (r: map<string, Color>)
    requires Painted(color) && next in Nodes(Adjacency(direction))
    ensures Painted(r) && color.Keys <= r.Keys
  {
    if next in color then color else Explore(direction, color, stack, next).1
  }

  lemma PastHarmlessKeeps(direction: map<string, seq<string>>, c: map<string, Color>, d: map<string, Color>, stack: seq<string>,
      next: string)
    requires Painted(c) && next in Nodes(Adjacency(direction))
    requires !LeadsToCycle(Adjacency(direction), next) && Alike(Adjacency(direction), c, d)
    ensures Alike(Adjacency(direction), PastHarmless(direction, c, stack, next), d)
  {
    hide LeadsToCycle, Reaches, Nodes;
    if next !in c {
      ExploreHarmless(direction, c, stack, next);
    }
  }

  lemma SkipsHarmless(direction: map<string, seq<string>>, color: map<string, Color>, stack: seq<string>, node: string, i: nat)
    requires Painted(color) && i < |Targets(direction, node)|
    requires var next := Targets(direction, node)[i];
             && next in Nodes(Adjacency(direction)) && !LeadsToCycle(Adjacency(direction), next)
             && forall m :: !LeadsToCycle(Adjacency(direction), m) ==> ColorIn(color, m) != Gray
    ensures var past := PastHarmless(direction, color, stack, Targets(direction, node)[i]);
            ExploreTargets(direction, color, stack, node, i) == ExploreTargets(direction, past, stack, node, i + 1)
  {
    hide LeadsToCycle, Reaches, Nodes;
    var next := Targets(direction, node)[i];
    if next !in color {
      ExploreHarmless(direction, color, stack, next);
    }
  }

  // A search that finds nothing.

  ghost predicate BlackIsHarmless(g: Graph<string>, color: map<string, Color>) {
    forall m :: ColorIn(color, m) == Black ==> !LeadsToCycle(g, m)
  }

  /** It started at a node that leads to no cycle. */
  lemma {:induction false} ExploreNothing(direction: map<string, seq<string>>, color: map<string, Color>, stack: seq<string>,
      node: string)
    requires Painted(color) && node !in color && node in Nodes(Adjacency(direction))
    requires BlackIsHarmless(Adjacency(direction), color)
    ensures var r := Explore(direction, color, stack, node);
            r.0 == None ==> !LeadsToCycle(Adjacency(direction), node) && BlackIsHarmless(Adjacency(direction), r.1)
    decreases Nodes(Adjacency(direction)) - color.Keys, 0
  {
    hide LeadsToCycle;
    assert node in Nodes(Adjacency(direction)) - color.Keys && node in color[node := Gray].Keys;
    TargetsNothing(direction, color[node := Gray], stack + [node], node, 0);
  }

  lemma {:induction false} TargetsNothing(direction: map<string, seq<string>>, color: map<string, Color>, stack: seq<string>,
      node: string, i: nat)
    requires Painted(color) && i <= |Targets(direction, node)|
    requires BlackIsHarmless(Adjacency(direction), color)
    requires forall j :: 0 <= j < i ==> !LeadsToCycle(Adjacency(direction), Targets(direction, node)[j])
    ensures var r := ExploreTargets(direction, color, stack, node, i);
            r.0 == None ==> !LeadsToCycle(Adjacency(direction), node) && BlackIsHarmless(Adjacency(direction), r.1)
    decreases Nodes(Adjacency(direction)) - color.Keys, 1 + |Targets(direction, node)| - i
  {
    hide LeadsToCycle, Nodes;
    var g := Adjacency(direction);
    if i == |Targets(direction, node)| {
      assert forall w :: Edge(g, node, w) ==> w in Targets(direction, node);
      HarmlessFromSteps(g, node);
    } else {
      var next := Targets(direction, node)[i];
      assert Edge(g, node, next);
      TargetIsNode(g, node, next);
      match ColorIn(color, next) {
        case Gray =>
        case Black =>
          TargetsNothing(direction, color, stack, node, i + 1);
        case White =>
          ExploreNothing(direction, color, stack, next);
          var below := Explore(direction, color, stack, next);
          if below.0 == None {
            TargetsNothing(direction, below.1, stack, node, i + 1);
          }
      }
    }
  }

  // The order of the sources.

  /** The cycle that the search finds from one source alone. */
  function Answer(direction: map<string, seq<string>>, source: string): Option<seq<string>>
    requires source in direction
  {
    Explore(direction, map[], [], source).0
  }

  /** The first source that leads to a cycle. */
  ghost function FirstLeading(direction: map<string, seq<string>>, sources: seq<string>): (i: nat)
    ensures i <= |sources| && (i < |sources| ==> LeadsToCycle(Adjacency(direction), sources[i]))
    ensures forall j :: 0 <= j < i ==> !LeadsToCycle(Adjacency(direction), sources[j])
  {
    if sources == [] || LeadsToCycle(Adjacency(direction), sources[0]) then 0 else 1 + FirstLeading(direction, sources[1..])
  }

  ghost predicate OnlyBlackHarmless(g: Graph<string>, color: map<string, Color>) {
    forall m :: m in color ==> color[m] == Black && !LeadsToCycle(g, m)
  }

  lemma StillOnlyBlack(g: Graph<string>, color: map<string, Color>, after: map<string, Color>, s: string)
    requires OnlyBlackHarmless(g, color) && OnlyHarmless(g, color, after, s)
    requires Painted(after) && ColorIn(after, s) == Black && !LeadsToCycle(g, s)
    ensures OnlyBlackHarmless(g, after)
  {
    hide LeadsToCycle;
    forall m | m in after
      ensures after[m] == Black && !LeadsToCycle(g, m)
    {
      assert ColorIn(color, m) != Gray;
      assert ColorIn(after, m) != Gray;
      assert LeadsToCycle(g, m) ==> ColorIn(after, m) == ColorIn(color, m) == White;
    }
  }

  lemma {:induction false} FirstCycleFrom(direction: map<string, seq<string>>, color: map<string, Color>, sources: seq<string>)
    requires Painted(color) && OnlyBlackHarmless(Adjacency(direction), color)
    requires forall i :: 0 <= i < |sources| ==> sources[i] in direction
    ensures var i := FirstLeading(direction, sources);
            FirstCycle(direction, color, sources) == if i == |sources| then None else Answer(direction, sources[i])
    decreases |sources|
  {
    hide LeadsToCycle, Reaches;
    var g := Adjacency(direction);
    if sources != [] {
      var s := sources[0];
      if s in color {
        FirstCycleFrom(direction, color, sources[1..]);
      } else if LeadsToCycle(g, s) {
        ExploreAlike(direction, color, map[], [], s);
        ExploreNothing(direction, color, [], s);
      } else {
        ExploreHarmless(direction, color, [], s);
        StillOnlyBlack(g, color, Explore(direction, color, [], s).1, s);
        FirstCycleFrom(direction, Explore(direction, color, [], s).1, sources[1..]);
      }
    }
  }

  lemma LeadingAnswers(direction: map<string, seq<string>>, source: string)
    requires source in direction
    ensures Answer(direction, source).Some? <==> LeadsToCycle(Adjacency(direction), source)
  {
    hide LeadsToCycle, Reaches;
    ExploreNothing(direction, map[], [], source);
    if !LeadsToCycle(Adjacency(direction), source) {
      ExploreHarmless(direction, map[], [], source);
    }
  }

  /** For every order of the sources the reported cycle is the one found from the first source that
      leads to any, whatever was explored before it. */
  lemma FirstCycleIsFirstAnswer(direction: map<string, seq<string>>, sources: seq<string>)
    requires forall i :: 0 <= i < |sources| ==> sources[i] in direction
    ensures var i := FirstLeading(direction, sources);
            if i == |sources| then FirstCycle(direction, map[], sources) == None
            else Answer(direction, sources[i]).Some? && FirstCycle(direction, map[], sources) == Answer(direction, sources[i])
  {
    hide LeadsToCycle;
    FirstCycleFrom(direction, map[], sources);
    if FirstLeading(direction, sources) < |sources| {
      LeadingAnswers(direction, sources[FirstLeading(direction, sources)]);
    }
  }

  /** So two orders of the same sources report the same cycle exactly when their first leading
      sources have the same answer. */
  lemma OrdersAgreeIff(direction: map<string, seq<string>>, a: seq<string>, b: seq<string>)
    requires forall s :: s in a ==> s in direction
    requires forall s :: s in a <==> s in b
    ensures var i, j := FirstLeading(direction, a), FirstLeading(direction, b);
            && (i == |a| <==> j == |b|)
            && (FirstCycle(direction, map[], a) == FirstCycle(direction, map[], b) <==>
                  i == |a| || Answer(direction, a[i]) == Answer(direction, b[j]))
  {
    hide LeadsToCycle, FirstCycle, Answer;
    FirstCycleIsFirstAnswer(direction, a);
    FirstCycleIsFirstAnswer(direction, b);
    var i, j := FirstLeading(direction, a), FirstLeading(direction, b);
    if i < |a| {
      assert a[i] in b;
    }
    if j < |b| {
      assert b[j] in a;
    }
  }

  /** The order is the keys', not the declared sublayers': with two separate cycles the latter
      would report the other one. */
  lemma SourceOrderMatters()
    ensures var direction := map["a" := ["a"], "b" := ["b"]];
            && AreSortedKeys(direction, ["a", "b"])
            && FirstCycle(direction, map[], ["a", "b"]) == Some(["a", "a"])
            && FirstCycle(direction, map[], ["b", "a"]) == Some(["b", "b"])
  {
    var direction := map["a" := ["a"], "b" := ["b"]];
    SelfLoopFirst(direction, "a", ["b"]);
    SelfLoopFirst(direction, "b", ["a"]);
    assert ["a", "b"] == ["a"] + ["b"] && ["b", "a"] == ["b"] + ["a"];
    assert ["a", "b"][0] == "a" && ["a", "b"][1] == "b" && Less("a", "b");
  }

  /** A layer that is listed as its own first target closes a cycle at once. */
  lemma SelfLoopFirst(direction: map<string, seq<string>>, x: string, more: seq<string>)
    requires x in direction && direction[x] != [] && direction[x][0] == x
    requires forall i :: 0 <= i < |more| ==> more[i] in direction
    ensures FirstCycle(direction, map[], [x] + more) == Some([x, x])
  {
    var color: map<string, Color> := map[x := Gray];
    assert IndexOf([x], x) == 0;
    assert CycleAt([x], x) == [x, x];
    assert ExploreTargets(direction, color, [x], x, 0).0 == Some([x, x]);
    assert [] + [x] == [x] && map[][x := Gray] == color;
    assert Explore(direction, map[], [], x).0 == Some([x, x]);
  }
}
