/** The team-defined description of a project, its validation, and the depth-first search for a
    cycle among the allowed layer directions. */
module Architecture {
  import opened Digraph
  import opened GoStrings
  import opened Options
  import opened Sorting

  datatype LayerModel = LayerModel(
    sublayers: seq<string>,
    direction: map<string, seq<string>>,
    portLayers: seq<string>,
    contractLayers: seq<string>,
    pkgRestricted: map<string, bool>,
    internalTopLevel: set<string>,
    layerDirNames: set<string>)

  datatype LayoutModel = LayoutModel(
    internalRoot: string,
    domainDir: string,
    orchestrationDir: string,
    sharedDir: string,
    appDir: string,
    serverDir: string)

  datatype StructurePolicy = StructurePolicy(
    requireAlias: bool,
    typePatternDirs: seq<string>,
    interfacePatternExclude: set<string>)

  datatype Arch = Arch(layers: LayerModel, layout: LayoutModel, structure: StructurePolicy)

  // The cycle search.

  datatype Color = White | Gray | Black

  function Targets(direction: map<string, seq<string>>, layer: string): seq<string> {
    if layer in direction then direction[layer] else []
  }

  /** The layer graph that `Direction` spells out. */
  function Adjacency(direction: map<string, seq<string>>): Graph<string> {
    map l | l in direction :: set t | t in direction[l]
  }

  function ColorIn(color: map<string, Color>, n: string): Color {
    if n in color then color[n] else White
  }

  ghost function BlackIn(color: map<string, Color>): set<string> {
    set n | n in color && color[n] == Black
  }

  /** The gray nodes are the stack, the stack is a path, and everything reachable from a black
      node is black and on no cycle. */
  ghost predicate SearchInv(g: Graph<string>, color: map<string, Color>, stack: seq<string>) {
    && (forall n :: ColorIn(color, n) == Gray <==> n in stack)
    && (forall i, j :: 0 <= i < j < |stack| ==> stack[i] != stack[j])
    && (stack != [] ==> IsWalk(g, stack))
    && Closed(g, BlackIn(color))
    && (forall n :: n in BlackIn(color) ==> !Reaches(g, n, n))
    && (forall n :: n in color ==> color[n] != White && n in Nodes(g))
  }

  lemma TargetIsNode(g: Graph<string>, a: string, b: string)
    requires Edge(g, a, b)
    ensures b in Nodes(g)
  {
  }

  lemma EnterNode(g: Graph<string>, color: map<string, Color>, stack: seq<string>, node: string)
    requires SearchInv(g, color, stack) && ColorIn(color, node) == White && node in Nodes(g)
    requires stack != [] ==> Edge(g, stack[|stack| - 1], node)
    ensures SearchInv(g, color[node := Gray], stack + [node])
    ensures BlackIn(color[node := Gray]) == BlackIn(color)
  {
    var c, s := color[node := Gray], stack + [node];
    assert BlackIn(c) == BlackIn(color);
    forall n
      ensures ColorIn(c, n) == Gray <==> n in s
    {
      assert n in s <==> n in stack || n == node;
    }
  }

  lemma LeaveNode(g: Graph<string>, color: map<string, Color>, stack: seq<string>, node: string)
    requires SearchInv(g, color, stack + [node])
    requires Succ(g, node) <= BlackIn(color)
    ensures SearchInv(g, color[node := Black], stack)
    ensures BlackIn(color[node := Black]) == BlackIn(color) + {node}
  {
    var c, s := color[node := Black], stack + [node];
    var black := BlackIn(color);
    assert node in s && ColorIn(color, node) == Gray;
    assert BlackIn(c) == black + {node};
    if Reaches(g, node, node) {
      ReachesStaysInside(g, black, node, node);
    }
    forall n
      ensures ColorIn(c, n) == Gray <==> n in stack
    {
      assert n in s <==> n in stack || n == node;
      assert s[|stack|] == node;
      if n in stack {
        var i :| 0 <= i < |stack| && stack[i] == n;
        assert s[i] != s[|stack|];
      }
    }
    forall i, j | 0 <= i < j < |stack|
      ensures stack[i] != stack[j]
    {
      assert s[i] != s[j];
    }
    if stack != [] {
      forall i | 0 <= i < |stack| - 1
        ensures Edge(g, stack[i], stack[i + 1])
      {
        assert Edge(g, s[i], s[i + 1]);
      }
    }
  }

  lemma CloseWalk(g: Graph<string>, s: seq<string>, start: nat)
    requires start < |s| && IsWalk(g, s) && Edge(g, s[|s| - 1], s[start])
    ensures IsClosedWalk(g, s[start..] + [s[start]])
  {
    var c := s[start..] + [s[start]];
    forall i | 0 <= i < |c| - 1
      ensures Edge(g, c[i], c[i + 1])
    {
      if i < |c| - 2 {
        assert Edge(g, s[start + i], s[start + i + 1]);
      }
    }
  }

  lemma AllBlackIsAcyclic(g: Graph<string>, color: map<string, Color>, stack: seq<string>)
    requires SearchInv(g, color, stack) && g.Keys <= BlackIn(color)
    ensures Acyclic(g)
  {
    forall v
      ensures !Reaches(g, v, v)
    {
      if Reaches(g, v, v) {
        var c := ReachesFirstStep(g, v, v);
      }
    }
  }

  // The order of the search, which decides the cycle that is found.

  /** A search's cycle, if any, and the colors it leaves. */
  type Explored = (Option<seq<string>>, map<string, Color>)

  predicate Painted(color: map<string, Color>) {
    forall n :: n in color ==> color[n] != White
  }

  function IndexOf(s: seq<string>, x: string): (i: nat)
    ensures i <= |s| && x !in s[..i]
    ensures i < |s| ==> s[i] == x
    ensures x in s ==> i < |s|
  {
    if s == [] || s[0] == x then 0 else 1 + IndexOf(s[1..], x)
  }

  /** From where x is on the stack to the top, and x again. */
  function CycleAt(stack: seq<string>, x: string): seq<string> {
    stack[IndexOf(stack, x)..] + [x]
  }

  /** What exploring a white node finds: its targets in their listed order, depth first. */
  function Explore(direction: map<string, seq<string>>, color: map<string, Color>, stack: seq<string>, node: string)
    : (r: Explored)
    requires Painted(color) && node !in color && node in Nodes(Adjacency(direction))
    ensures Painted(r.1) && color.Keys <= r.1.Keys
    decreases Nodes(Adjacency(direction)) - color.Keys, 0
  {
    assert node in Nodes(Adjacency(direction)) - color.Keys && node in color[node := Gray].Keys;
    ExploreTargets(direction, color[node := Gray], stack + [node], node, 0)
  }

  function ExploreTargets(direction: map<string, seq<string>>, color: map<string, Color>, stack: seq<string>,
      node: string, i: nat): (r: Explored)
    requires Painted(color) && i <= |Targets(direction, node)|
    ensures Painted(r.1) && color.Keys <= r.1.Keys
    decreases Nodes(Adjacency(direction)) - color.Keys, 1 + |Targets(direction, node)| - i
  {
    if i == |Targets(direction, node)| then (None, color[node := Black])
    else
      var next := Targets(direction, node)[i];
      assert Edge(Adjacency(direction), node, next);
      match ColorIn(color, next)
      case Gray => (Some(CycleAt(stack, next)), color)
      case Black => ExploreTargets(direction, color, stack, node, i + 1)
      case White =>
        var below := Explore(direction, color, stack, next);
        if below.0.Some? then below else ExploreTargets(direction, below.1, stack, node, i + 1)
  }

  /** The first cycle met from the sources in the given order. */
  function FirstCycle(direction: map<string, seq<string>>, color: map<string, Color>, sources: seq<string>)
    : Option<seq<string>>
    requires Painted(color) && forall i :: 0 <= i < |sources| ==> sources[i] in direction
    decreases |sources|
  {
    if sources == [] then None
    else if sources[0] in color then FirstCycle(direction, color, sources[1..])
    else
      var found := Explore(direction, color, [], sources[0]);
      if found.0.Some? then found.0 else FirstCycle(direction, found.1, sources[1..])
  }

  /** The keys in increasing order. */
  ghost predicate AreSortedKeys(direction: map<string, seq<string>>, sources: seq<string>) {
    StrictlyIncreasing(sources) && forall k :: k in sources <==> k in direction
  }

  class CycleSearch {
    const direction: map<string, seq<string>>
    var color: map<string, Color>
    var stack: seq<string>

    constructor (direction: map<string, seq<string>>)
      ensures this.direction == direction && color == map[] && stack == [] && Inv()
    {
      this.direction := direction;
      color := map[];
      stack := [];
    }

    ghost predicate Inv()
      reads this
    {
      SearchInv(Adjacency(direction), color, stack)
    }

    ghost function Done(): set<string>
      reads this
    {
      BlackIn(color)
    }

    lemma ColorMeaning(n: string)
      requires Inv()
      ensures ColorIn(color, n) == White <==> n !in color
      ensures ColorIn(color, n) == Gray <==> n in stack
      ensures ColorIn(color, n) == Black <==> n in Done()
    {
    }

    lemma AllDoneIsAcyclic()
      requires Inv() && direction.Keys <= Done()
      ensures Acyclic(Adjacency(direction))
    {
      AllBlackIsAcyclic(Adjacency(direction), color, stack);
    }

    /** Paints the node gray and pushes it. */
    method Enter(node: string)
      requires Inv() && ColorIn(color, node) == White && node in Nodes(Adjacency(direction))
      requires stack != [] ==> Edge(Adjacency(direction), stack[|stack| - 1], node)
      modifies this
      ensures Inv() && Done() == old(Done())
      ensures color == old(color)[node := Gray] && stack == old(stack) + [node]
    {
      EnterNode(Adjacency(direction), color, stack, node);
      color := color[node := Gray];
      stack := stack + [node];
    }

    /** Pops the node, all of whose targets are done, and paints it black. */
    method Leave(node: string)
      requires Inv() && stack != [] && stack[|stack| - 1] == node
      requires Succ(Adjacency(direction), node) <= Done()
      modifies this
      ensures Inv() && Done() == old(Done()) + {node}
      ensures color == old(color)[node := Black] && stack == old(stack)[..|old(stack)| - 1]
    {
      assert stack == stack[..|stack| - 1] + [node];
      LeaveNode(Adjacency(direction), color, stack[..|stack| - 1], node);
      stack := stack[..|stack| - 1];
      color := color[node := Black];
    }

    /** The cycle that a gray target closes. The search for the target starts at -1 and always
        finds it, so the source's `start < 0` exit is dead. */
    method ExtractCycle(next: string) returns (cycle: seq<string>)
      requires Inv() && ColorIn(color, next) == Gray
      requires stack != [] ==> Edge(Adjacency(direction), stack[|stack| - 1], next)
      ensures IsClosedWalk(Adjacency(direction), cycle) && cycle == CycleAt(stack, next)
    {
      var start := -1;
      for i := 0 to |stack|
        invariant start == -1 && next !in stack[..i]
      {
        if stack[i] == next {
          start := i;
          break;
        }
      }
      assert start >= 0;
      IndexUnique(stack, next, start);
      CloseWalk(Adjacency(direction), stack, start);
      cycle := stack[start..] + [next];
    }

    lemma IsPainted()
      requires Inv()
      ensures Painted(color)
    {
    }

    /** Explores one white node that hangs below the top of the stack. A search that comes back
        without a cycle has restored the stack and blackened the node; a reported cycle is a
        closed walk of allowed directions, and the one that this order of search meets first. */
    method Dfs(node: string) returns (cycle: Option<seq<string>>)
      requires Inv() && ColorIn(color, node) == White && node in Nodes(Adjacency(direction))
      requires stack != [] ==> Edge(Adjacency(direction), stack[|stack| - 1], node)
      modifies this
      ensures match cycle
              case Some(c) => IsClosedWalk(Adjacency(direction), c)
              case None => Inv() && stack == old(stack) && old(Done()) + {node} <= Done()
      ensures old(color.Keys) <= color.Keys
      ensures Painted(old(color)) && node !in old(color)
      ensures (cycle, color) == Explore(direction, old(color), old(stack), node)
      decreases Nodes(Adjacency(direction)) - color.Keys
    {
      hide Inv, Done, IsClosedWalk, Nodes, Painted, CycleAt;
      ColorMeaning(node);
      IsPainted();
      Enter(node);
      IsPainted();
      ghost var here, first := stack, color;
      var targets := Targets(direction, node);
      for i := 0 to |targets|
        invariant Inv() && stack == here
        invariant old(Done()) <= Done()
        invariant old(color.Keys) + {node} <= color.Keys
        invariant forall j :: 0 <= j < i ==> targets[j] in Done()
        invariant Painted(color) && ExploreTargets(direction, first, here, node, 0) == ExploreTargets(direction, color, here, node, i)
      {
        var next := targets[i];
        assert Edge(Adjacency(direction), node, next);
        TargetIsNode(Adjacency(direction), node, next);
        ColorMeaning(next);
        match ColorIn(color, next) {
          case Gray =>
            var c := ExtractCycle(next);
            return Some(c);
          case White =>
            var c := Dfs(next);
            if c.Some? {
              return c;
            }
            IsPainted();
          case Black =>
        }
      }
      Leave(node);
      return None;
    }
  }

  lemma {:induction false} IndexUnique(s: seq<string>, x: string, i: nat)
    requires i < |s| && s[i] == x && x !in s[..i]
    ensures IndexOf(s, x) == i
  {
    if i > 0 {
      assert s[..i] == [s[0]] + s[1..][..i - 1];
      IndexUnique(s[1..], x, i - 1);
    }
  }

  /** Returns no cycle exactly when the directions form a DAG, whatever the map is; a returned
      cycle starts and ends at one layer and follows allowed directions. It is the one met first
      from the keys in sorted order. */
  method FindDirectionCycle(direction: map<string, seq<string>>) returns (cycle: Option<seq<string>>)
    ensures cycle.None? <==> Acyclic(Adjacency(direction))
    ensures cycle.Some? ==> IsClosedWalk(Adjacency(direction), cycle.value)
    ensures forall sources :: AreSortedKeys(direction, sources) ==> cycle == FirstCycle(direction, map[], sources)
  {
    hide CycleSearch.Inv, CycleSearch.Done, IsClosedWalk, Acyclic, Painted, Explore, AreSortedKeys, ReachSet;
    var search := new CycleSearch(direction);
    var sources := SortedKeys(direction.Keys);
    OnlySortedKeys(direction, sources);
    search.IsPainted();
    assert sources[0..] == sources;
    for i := 0 to |sources|
      invariant fresh(search) && search.direction == direction
      invariant search.Inv() && search.stack == []
      invariant forall j :: 0 <= j < i ==> sources[j] in search.Done()
      invariant Painted(search.color)
      invariant FirstCycle(direction, map[], sources) == FirstCycle(direction, search.color, sources[i..])
    {
      var src := sources[i];
      assert sources[i..][0] == src && sources[i..][1..] == sources[i + 1..];
      search.ColorMeaning(src);
      if ColorIn(search.color, src) == White {
        var c := search.Dfs(src);
        if c.Some? {
          ClosedWalkIsReach(Adjacency(direction), c.value);
          return c;
        }
        search.IsPainted();
      }
    }
    search.AllDoneIsAcyclic();
    return None;
  }

  lemma OnlySortedKeys(direction: map<string, seq<string>>, sources: seq<string>)
    requires AreSortedKeys(direction, sources)
    ensures forall other :: AreSortedKeys(direction, other) ==> other == sources
  {
    forall other | AreSortedKeys(direction, other)
      ensures other == sources
    {
      StrictlyIncreasingUnique(other, sources);
    }
  }

  // Validation.

  datatype ArchError =
    | EmptySublayer
    | DuplicateSublayer(layer: string)
    | DirectionMissingKey(layer: string)
    | DirectionUnknownSource(layer: string)
    | DirectionUnknownTarget(source: string, target: string)
    | UnknownPortLayer(layer: string)
    | UnknownContractLayer(layer: string)
    | PortNotContract(layer: string)
    | UnknownPkgRestricted(layer: string)
    | UnknownInterfaceExclude(layer: string)
    | EmptyLayerDirName
    | EmptyInternalTopLevel
    | EmptyTypePatternDir
    | UnknownTypePatternDir(layer: string)
    | DirectionCycle(cycle: seq<string>)

  /** Layers that pass the sublayer loop: declared and not the empty string. */
  predicate Known(layers: LayerModel, layer: string) {
    layer != "" && layer in layers.sublayers
  }

  /** A non-empty name that is listed twice. */
  ghost predicate Repeated(names: seq<string>, x: string) {
    x != "" && exists i, j :: 0 <= i < j < |names| && names[i] == x && names[j] == x
  }

  lemma RepeatedStep(names: seq<string>, x: string, y: string)
    ensures Repeated(names + [y], x) <==> Repeated(names, x) || (x == y && y != "" && y in names)
  {
    var all := names + [y];
    assert all[|names|] == y && forall i :: 0 <= i < |names| ==> all[i] == names[i];
    if x == y && y != "" && y in names {
      var i :| 0 <= i < |names| && names[i] == y;
      assert all[i] == x && all[|names|] == x;
    }
    if Repeated(names, x) {
      var i, j :| 0 <= i < j < |names| && names[i] == x && names[j] == x;
      assert all[i] == x && all[j] == x;
    }
  }

  /** What each complaint means, independently of the loop that raises it. */
  ghost predicate Holds(a: Arch, e: ArchError) {
    var l := a.layers;
    match e
    case EmptySublayer => "" in l.sublayers
    case DuplicateSublayer(x) => Repeated(l.sublayers, x)
    case DirectionMissingKey(x) => x in l.sublayers && x !in l.direction
    case DirectionUnknownSource(x) => x in l.direction && !Known(l, x)
    case DirectionUnknownTarget(s, t) => s in l.direction && t in l.direction[s] && !Known(l, t)
    case UnknownPortLayer(x) => x in l.portLayers && !Known(l, x)
    case UnknownContractLayer(x) => x in l.contractLayers && !Known(l, x)
    case PortNotContract(x) => x in l.portLayers && x !in l.contractLayers
    case UnknownPkgRestricted(x) => x in l.pkgRestricted && !Known(l, x)
    case UnknownInterfaceExclude(x) => x in a.structure.interfacePatternExclude && !Known(l, x)
    case EmptyLayerDirName => "" in l.layerDirNames
    case EmptyInternalTopLevel => "" in l.internalTopLevel
    case EmptyTypePatternDir => "" in a.structure.typePatternDirs
    case UnknownTypePatternDir(x) => x in a.structure.typePatternDirs && x != "" && !Known(l, x)
    case DirectionCycle(c) => IsClosedWalk(Adjacency(l.direction), c)
  }

  /** The architecture a rule may rely on. */
  ghost predicate ValidArch(a: Arch) {
    var l := a.layers;
    && "" !in l.sublayers
    && (forall i, j :: 0 <= i < j < |l.sublayers| ==> l.sublayers[i] != l.sublayers[j])
    && (set s | s in l.sublayers) == l.direction.Keys
    && (forall s, t :: s in l.direction && t in l.direction[s] ==> t in l.sublayers)
    && (forall p :: p in l.portLayers ==> p in l.contractLayers)
    && (forall p :: p in l.contractLayers ==> p in l.sublayers)
    && (forall p :: p in l.pkgRestricted ==> p in l.sublayers)
    && (forall p :: p in a.structure.interfacePatternExclude ==> p in l.sublayers)
    && (forall p :: p in a.structure.typePatternDirs ==> p in l.sublayers)
    && "" !in l.layerDirNames && "" !in l.internalTopLevel
    && Acyclic(Adjacency(l.direction))
  }

  /** No complaint holds exactly for an architecture the rules may rely on. */
  lemma NoComplaintIffValid(a: Arch)
    ensures (forall e :: !Holds(a, e)) <==> ValidArch(a)
  {
    var l := a.layers;
    if forall e :: !Holds(a, e) {
      ComplaintFree(a);
    }
    if ValidArch(a) {
      forall e
        ensures !Holds(a, e)
      {
        if e.DirectionCycle? && Holds(a, e) {
          ClosedWalkIsReach(Adjacency(l.direction), e.cycle);
        }
      }
    }
  }

  lemma ComplaintFree(a: Arch)
    requires forall e :: !Holds(a, e)
    ensures ValidArch(a)
  {
    var l := a.layers;
    assert !Holds(a, EmptySublayer) && !Holds(a, EmptyLayerDirName);
    assert !Holds(a, EmptyInternalTopLevel) && !Holds(a, EmptyTypePatternDir);
    forall i, j | 0 <= i < j < |l.sublayers|
      ensures l.sublayers[i] != l.sublayers[j]
    {
      assert !Holds(a, DuplicateSublayer(l.sublayers[i]));
    }
    forall x
      ensures x in l.sublayers <==> x in l.direction
    {
      assert !Holds(a, DirectionMissingKey(x)) && !Holds(a, DirectionUnknownSource(x));
    }
    DirectionComplaintFree(a);
    MembershipComplaintFree(a);
  }

  lemma MembershipComplaintFree(a: Arch)
    requires forall e :: !Holds(a, e)
    ensures var l := a.layers;
            forall x ::
              && (x in l.contractLayers ==> x in l.sublayers)
              && (x in l.portLayers ==> x in l.contractLayers)
              && (x in l.pkgRestricted ==> x in l.sublayers)
              && (x in a.structure.interfacePatternExclude ==> x in l.sublayers)
              && (x in a.structure.typePatternDirs ==> x in l.sublayers)
  {
    assert !Holds(a, EmptyTypePatternDir);
    forall x
      ensures x in a.layers.contractLayers ==> x in a.layers.sublayers
      ensures x in a.layers.portLayers ==> x in a.layers.contractLayers
      ensures x in a.layers.pkgRestricted ==> x in a.layers.sublayers
      ensures x in a.structure.interfacePatternExclude ==> x in a.layers.sublayers
      ensures x in a.structure.typePatternDirs ==> x in a.layers.sublayers
    {
      assert !Holds(a, UnknownContractLayer(x)) && !Holds(a, PortNotContract(x));
      assert !Holds(a, UnknownPkgRestricted(x)) && !Holds(a, UnknownInterfaceExclude(x));
      assert !Holds(a, UnknownTypePatternDir(x));
    }
  }

  lemma DirectionComplaintFree(a: Arch)
    requires forall e :: !Holds(a, e)
    ensures forall s, t :: s in a.layers.direction && t in a.layers.direction[s] ==> t in a.layers.sublayers
    ensures Acyclic(Adjacency(a.layers.direction))
  {
    var l := a.layers;
    forall s, t | s in l.direction && t in l.direction[s]
      ensures t in l.sublayers
    {
      assert !Holds(a, DirectionUnknownTarget(s, t));
    }
    forall v
      ensures !Reaches(Adjacency(l.direction), v, v)
    {
      if p :| WalkBetween(Adjacency(l.direction), p, v, v) {
        assert Holds(a, DirectionCycle(p));
      }
    }
  }

  /** The loops that report every element failing a test. */
  method Complain(xs: seq<string>, bad: string -> bool, err: string -> ArchError, errs: seq<ArchError>)
    returns (r: seq<ArchError>)
    ensures forall e :: e in r <==> e in errs || exists x :: x in xs && bad(x) && e == err(x)
  {
    r := errs;
    for i := 0 to |xs|
      invariant forall e :: e in r <==> e in errs || exists j :: 0 <= j < i && bad(xs[j]) && e == err(xs[j])
    {
      if bad(xs[i]) {
        r := r + [err(xs[i])];
      }
    }
  }

  /** The sublayer loop: empty and repeated names are reported, the others become known. */
  method CheckSublayers(l: LayerModel) returns (known: set<string>, errs: seq<ArchError>)
    ensures forall x :: x in known <==> Known(l, x)
    ensures forall e :: e in errs <==>
      || (e == EmptySublayer && "" in l.sublayers)
      || (e.DuplicateSublayer? && Repeated(l.sublayers, e.layer))
  {
    known, errs := {}, [];
    for n := 0 to |l.sublayers|
      invariant forall x :: x in known <==> x != "" && x in l.sublayers[..n]
      invariant forall e :: e in errs <==>
        || (e == EmptySublayer && "" in l.sublayers[..n])
        || (e.DuplicateSublayer? && Repeated(l.sublayers[..n], e.layer))
    {
      var x := l.sublayers[n];
      assert l.sublayers[..n + 1] == l.sublayers[..n] + [x];
      forall y
        ensures Repeated(l.sublayers[..n + 1], y) <==> Repeated(l.sublayers[..n], y) || (x == y && x != "" && x in l.sublayers[..n])
      {
        RepeatedStep(l.sublayers[..n], y, x);
      }
      if x == "" {
        errs := errs + [EmptySublayer];
      } else {
        if x in known {
          errs := errs + [DuplicateSublayer(x)];
        }
        known := known + {x};
      }
    }
  }

  /** The nested loop over the allowed directions. */
  method CheckDirections(l: LayerModel, known: set<string>, errs: seq<ArchError>) returns (r: seq<ArchError>)
    ensures forall e :: e in r <==>
      || e in errs
      || (e.DirectionUnknownSource? && e.layer in l.direction && e.layer !in known)
      || (e.DirectionUnknownTarget? && e.source in l.direction && e.target in l.direction[e.source] &&
          e.target !in known)
  {
    r := errs;
    var rest := l.direction.Keys;
    while rest != {}
      invariant rest <= l.direction.Keys
      invariant forall e :: e in r <==>
        || e in errs
        || (e.DirectionUnknownSource? && e.layer in l.direction.Keys - rest && e.layer !in known)
        || (e.DirectionUnknownTarget? && e.source in l.direction.Keys - rest &&
            e.target in l.direction[e.source] && e.target !in known)
      decreases rest
    {
      var src :| src in rest;
      if src !in known {
        r := r + [DirectionUnknownSource(src)];
      }
      r := Complain(l.direction[src], t => t !in known, t => DirectionUnknownTarget(src, t), r);
      rest := rest - {src};
    }
  }

  /** Port and contract membership. */
  method CheckContracts(a: Arch, known: set<string>, errs: seq<ArchError>) returns (r: seq<ArchError>)
    requires forall x :: x in known <==> Known(a.layers, x)
    ensures forall e :: e in r <==>
      e in errs || ((e.UnknownPortLayer? || e.UnknownContractLayer? || e.PortNotContract?) && Holds(a, e))
  {
    var l := a.layers;
    r := Complain(l.portLayers, x => x !in known, x => UnknownPortLayer(x), errs);
    r := Complain(l.contractLayers, x => x !in known, x => UnknownContractLayer(x), r);
    r := Complain(l.portLayers, x => x !in l.contractLayers, x => PortNotContract(x), r);
  }

  /** The four loops over map keys. */
  method CheckKeySets(a: Arch, known: set<string>, errs: seq<ArchError>) returns (r: seq<ArchError>)
    requires forall x :: x in known <==> Known(a.layers, x)
    ensures forall e :: e in r <==>
      || e in errs
      || ((e.UnknownPkgRestricted? || e.UnknownInterfaceExclude? || e.EmptyLayerDirName? || e.EmptyInternalTopLevel?) && Holds(a, e))
  {
    var l := a.layers;
    var restricted := SortedKeys(l.pkgRestricted.Keys);
    r := Complain(restricted, x => x !in known, x => UnknownPkgRestricted(x), errs);
    var excluded := SortedKeys(a.structure.interfacePatternExclude);
    r := Complain(excluded, x => x !in known, x => UnknownInterfaceExclude(x), r);
    var dirs := SortedKeys(l.layerDirNames);
    r := Complain(dirs, x => x == "", x => EmptyLayerDirName, r);
    var top := SortedKeys(l.internalTopLevel);
    r := Complain(top, x => x == "", x => EmptyInternalTopLevel, r);
  }

  method CheckTypePatterns(a: Arch, known: set<string>, errs: seq<ArchError>) returns (r: seq<ArchError>)
    requires forall x :: x in known <==> Known(a.layers, x)
    ensures forall e :: e in r <==>
      e in errs || ((e.EmptyTypePatternDir? || e.UnknownTypePatternDir?) && Holds(a, e))
  {
    r := Complain(a.structure.typePatternDirs, x => x == "" || x !in known,
                  x => if x == "" then EmptyTypePatternDir else UnknownTypePatternDir(x), errs);
  }

  /** Architecture.Validate. Map ranges, which Go leaves in any order, are taken in sorted order.
      Nothing is reported exactly for a valid architecture, and the reports are exactly the
      complaints that hold, with the first cycle of the search for all of them. */
  method Validate(a: Arch) returns (errs: seq<ArchError>)
    ensures forall e :: e in errs ==> Holds(a, e)
    ensures forall e :: Holds(a, e) && !e.DirectionCycle? ==> e in errs
    ensures (exists e :: e in errs && e.DirectionCycle?) <==> !Acyclic(Adjacency(a.layers.direction))
    ensures forall e, sources :: e in errs && e.DirectionCycle? && AreSortedKeys(a.layers.direction, sources) ==>
      FirstCycle(a.layers.direction, map[], sources) == Some(e.cycle)
    ensures errs == [] <==> ValidArch(a)
  {
    hide ValidArch, Acyclic, IsClosedWalk;
    var l := a.layers;
    var known, found := CheckSublayers(l);
    errs := Complain(l.sublayers, x => x !in l.direction, x => DirectionMissingKey(x), found);
    assert forall e :: e in errs <==>
      (e.EmptySublayer? || e.DuplicateSublayer? || e.DirectionMissingKey?) && Holds(a, e);
    errs := CheckDirections(l, known, errs);
    errs := CheckContracts(a, known, errs);
    errs := CheckKeySets(a, known, errs);
    errs := CheckTypePatterns(a, known, errs);
    assert forall e :: e in errs <==> !e.DirectionCycle? && Holds(a, e);
    var cycle := FindDirectionCycle(l.direction);
    if cycle.Some? {
      errs := errs + [DirectionCycle(cycle.value)];
      assert Holds(a, DirectionCycle(cycle.value));
      assert DirectionCycle(cycle.value) in errs;
    }
    Conclude(a, errs);
  }

  lemma Conclude(a: Arch, errs: seq<ArchError>)
    requires forall e :: e in errs ==> Holds(a, e)
    requires forall e :: Holds(a, e) && !e.DirectionCycle? ==> e in errs
    requires (exists e :: e in errs && e.DirectionCycle?) <==> !Acyclic(Adjacency(a.layers.direction))
    ensures errs == [] <==> ValidArch(a)
  {
    hide Holds;
    NoComplaintIffValid(a);
    if errs == [] {
      forall e
        ensures !Holds(a, e)
      {
        if Holds(a, e) && e.DirectionCycle? {
          CycleComplaint(a, e);
        }
      }
    } else {
      assert Holds(a, errs[0]);
    }
  }

  lemma CycleComplaint(a: Arch, e: ArchError)
    requires Holds(a, e) && e.DirectionCycle?
    ensures !Acyclic(Adjacency(a.layers.direction))
  {
    ClosedWalkIsReach(Adjacency(a.layers.direction), e.cycle);
  }
}
