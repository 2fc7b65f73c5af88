/** dependency.NewLayerDirection: which sublayer may import which, decided import by import. */
module LayerDirection {
  import opened Architecture
  import opened Classifiers
  import opened DependencyRules
  import opened Digraph
  import opened GoStrings
  import opened Options
  import opened ProjectContext

  function CheckDirection(direction: map<string, seq<string>>, src: string, imp: string): Option<Rule> {
    if imp == "" || src == imp then None
    else if src !in direction || imp in direction[src] then None
    else Some(InvalidImportDirection)
  }

  predicate Restricted(layers: LayerModel, sublayer: string) {
    sublayer in layers.pkgRestricted && layers.pkgRestricted[sublayer]
  }

  function CheckImport(arch: Arch, src: Classified, imp: Classified): Option<Rule> {
    var layers := arch.layers;
    if imp.kind == Shared then
      if Restricted(layers, src.sublayer) then Some(InnerImportsPkg) else None
    else if imp.kind == Orchestration || imp.kind == Unclassified then None
    else if arch.layout.domainDir == "" then CheckDirection(layers.direction, src.sublayer, imp.sublayer)
    else if imp.domain != src.domain then None
    else if imp.sublayer != "" && imp.sublayer !in layers.sublayers then Some(UnknownSublayer)
    else CheckDirection(layers.direction, src.sublayer, imp.sublayer)
  }

  /** A package whose own sublayer is not declared; its imports are then not looked at. */
  predicate UnknownSource(ctx: Context, pkgPath: string) {
    var src := KindOf(ctx, pkgPath);
    && ctx.arch.layout.domainDir != "" && HasPrefix(pkgPath, InternalPrefix(ctx))
    && src.kind == Domain && src.sublayer != "" && src.sublayer !in ctx.arch.layers.sublayers
  }

  function ImportRule(ctx: Context, pkgPath: string, imp: string): Option<Rule> {
    var src := KindOf(ctx, pkgPath);
    if !HasPrefix(pkgPath, InternalPrefix(ctx)) || src.kind != Domain || UnknownSource(ctx, pkgPath) then None
    else if !HasPrefix(imp, InternalPrefix(ctx)) then None
    else CheckImport(ctx.arch, src, KindOf(ctx, imp))
  }

  /** What one package contributes: itself, or its forbidden imports. */
  predicate FoundIn(ctx: Context, pkg: Package, f: Finding) {
    && f.pkg == pkg.path
    && if UnknownSource(ctx, pkg.path) then f.rule == UnknownSublayer && f.imp == ""
       else f.imp in pkg.imports && ImportRule(ctx, pkg.path, f.imp) == Some(f.rule)
  }

  ghost predicate Reported(ctx: Context, f: Finding) {
    !ExcludedPackage(ctx, f.pkg) && exists i :: 0 <= i < |ctx.pkgs| && FoundIn(ctx, ctx.pkgs[i], f)
  }

  method CheckPackage(ctx: Context, pkg: Package) returns (vs: seq<Finding>)
    ensures forall f :: f in vs <==> FoundIn(ctx, pkg, f)
    ensures NoRepeats(vs)
  {
    hide ImportRule, UnknownSource;
    if UnknownSource(ctx, pkg.path) {
      return [Finding(UnknownSublayer, pkg.path, "")];
    }
    vs := [];
    var rest := pkg.imports;
    while rest != {}
      invariant rest <= pkg.imports
      invariant forall f :: f in vs <==> f.pkg == pkg.path && f.imp in pkg.imports - rest && ImportRule(ctx, pkg.path, f.imp) == Some(f.rule)
      invariant NoRepeats(vs)
      decreases rest
    {
      var imp :| imp in rest;
      var rule := ImportRule(ctx, pkg.path, imp);
      if rule.Some? {
        vs := vs + [Finding(rule.value, pkg.path, imp)];
      }
      rest := rest - {imp};
    }
  }

  method CheckPackages(ctx: Context) returns (vs: seq<Finding>)
    ensures forall f :: f in vs <==> Reported(ctx, f)
    ensures DistinctPackages(ctx) ==> NoRepeats(vs)
  {
    hide ImportRule, UnknownSource, ExcludedPackage;
    vs := [];
    for n := 0 to |ctx.pkgs|
      invariant forall f :: f in vs <==> !ExcludedPackage(ctx, f.pkg) && exists i :: 0 <= i < n && FoundIn(ctx, ctx.pkgs[i], f)
      invariant DistinctPackages(ctx) ==> NoRepeats(vs)
    {
      var pkg := ctx.pkgs[n];
      var excluded := IsExcluded(ctx, RelativePath(pkg.path, ctx.moduleName));
      ExcludedMeaning(ctx, pkg.path);
      var found := [];
      if !excluded {
        found := CheckPackage(ctx, pkg);
      }
      if DistinctPackages(ctx) {
        assert forall i :: 0 <= i < n ==> ctx.pkgs[i].path != pkg.path;
        ConcatNoRepeats(vs, found);
      }
      vs := vs + found;
    }
  }

  predicate Applies(ctx: Context) {
    ModuleMatches(ctx) && HasInternal(ctx)
  }

  /** LayerDirection.Check, for layouts with and without a domain directory. */
  method Check(ctx: Context) returns (vs: seq<Finding>)
    ensures !Applies(ctx) ==>
              vs == [Finding(if ModuleMatches(ctx) then MetaLayoutNotSupported else MetaNoMatchingPackages, "", "")]
    ensures Applies(ctx) ==> forall f :: f in vs <==> Reported(ctx, f)
    ensures Applies(ctx) ==> (Clean(vs) <==> forall f :: !Reported(ctx, f))
    ensures DistinctPackages(ctx) ==> NoRepeats(vs)
  {
    hide Reported;
    if !ModuleMatches(ctx) {
      return [Finding(MetaNoMatchingPackages, "", "")];
    }
    if !HasInternal(ctx) {
      return [Finding(MetaLayoutNotSupported, "", "")];
    }
    vs := CheckPackages(ctx);
    forall f
      ensures Reported(ctx, f) ==> !IsMeta(f.rule)
    {
      NeverMeta(ctx, f);
    }
    forall i | 0 <= i < |vs|
      ensures vs[i] in vs && Reported(ctx, vs[i])
    {
    }
  }

  lemma NeverMeta(ctx: Context, f: Finding)
    ensures Reported(ctx, f) ==> !IsMeta(f.rule)
  {
  }

  // Whole chains.

  /** A chain between packages that all sit in a sublayer of one domain. */
  ghost predicate LayerChain(ctx: Context, p: seq<string>) {
    && ImportChain(ctx, p)
    && forall i :: 0 <= i < |p| ==> KindOf(ctx, p[i]).kind == Domain && KindOf(ctx, p[i]).domain == KindOf(ctx, p[0]).domain
  }

  function LayerAt(ctx: Context, pkgPath: string): string {
    KindOf(ctx, pkgPath).sublayer
  }

  /** An import of a clean project between two sublayer packages of one domain. */
  ghost predicate LayerImport(ctx: Context, a: string, b: string) {
    && (forall f :: !Reported(ctx, f))
    && HasPrefix(a, InternalPrefix(ctx)) && HasPrefix(b, InternalPrefix(ctx))
    && Imports(ctx, a, b) && !ExcludedPackage(ctx, a)
    && KindOf(ctx, a).kind == Domain && KindOf(ctx, b).kind == Domain
    && KindOf(ctx, a).domain == KindOf(ctx, b).domain
  }

  /** An accepted import stays in its sublayer or follows an allowed direction. */
  lemma AcceptedImport(ctx: Context, a: string, b: string)
    requires ValidArch(ctx.arch) && LayerImport(ctx, a, b)
    ensures LayerAt(ctx, a) == LayerAt(ctx, b) || Edge(Adjacency(ctx.arch.layers.direction), LayerAt(ctx, a),
          LayerAt(ctx, b))
    ensures LayerAt(ctx, a) in ctx.arch.layers.sublayers && LayerAt(ctx, b) in ctx.arch.layers.sublayers
  {
    hide ExcludedPackage, InternalPrefix, Acyclic;
    DomainHasSublayer(ctx, a);
    DomainHasSublayer(ctx, b);
    hide KindOf;
    var n :| 0 <= n < |ctx.pkgs| && ctx.pkgs[n].path == a && b in ctx.pkgs[n].imports;
    var self := Finding(UnknownSublayer, a, "");
    assert !Reported(ctx, self) && !FoundIn(ctx, ctx.pkgs[n], self);
    assert !UnknownSource(ctx, a);
    var r := ImportRule(ctx, a, b);
    var f := Finding(if r.Some? then r.value else UnknownSublayer, a, b);
    assert !Reported(ctx, f) && !FoundIn(ctx, ctx.pkgs[n], f);
  }

  /** In a clean project with domains every judged package is in a declared sublayer, and none in a
      restricted one imports a shared package. */
  lemma CleanPackages(ctx: Context, a: string, b: string)
    requires ctx.arch.layout.domainDir != "" && forall f :: !Reported(ctx, f)
    requires HasPrefix(a, InternalPrefix(ctx)) && HasPrefix(b, InternalPrefix(ctx))
    requires Imports(ctx, a, b) && !ExcludedPackage(ctx, a) && KindOf(ctx, a).kind == Domain
    ensures LayerAt(ctx, a) in ctx.arch.layers.sublayers
    ensures Restricted(ctx.arch.layers, LayerAt(ctx, a)) ==> KindOf(ctx, b).kind != Shared
  {
    hide ExcludedPackage, InternalPrefix;
    DomainHasSublayer(ctx, a);
    hide KindOf;
    var n :| 0 <= n < |ctx.pkgs| && ctx.pkgs[n].path == a && b in ctx.pkgs[n].imports;
    var self, deep := Finding(UnknownSublayer, a, ""), Finding(InnerImportsPkg, a, b);
    assert !Reported(ctx, self) && !FoundIn(ctx, ctx.pkgs[n], self);
    assert !Reported(ctx, deep) && !FoundIn(ctx, ctx.pkgs[n], deep);
  }

  lemma DomainHasSublayer(ctx: Context, pkgPath: string)
    requires KindOf(ctx, pkgPath).kind == Domain
    ensures LayerAt(ctx, pkgPath) != ""
    ensures ctx.arch.layout.domainDir == "" ==> LayerAt(ctx, pkgPath) in ctx.arch.layers.sublayers
  {
  }

  /** One numbering of the sublayers, fixed by the architecture, never rises along any chain of a
      clean project and falls whenever the sublayer changes; so a chain that has left a sublayer
      is never back in it. */
  lemma {:induction false} LayerDescent(ctx: Context, p: seq<string>, i: nat, j: nat)
    requires ValidArch(ctx.arch) && forall f :: !Reported(ctx, f)
    requires LayerChain(ctx, p) && i <= j < |p|
    ensures var rank := Height(Adjacency(ctx.arch.layers.direction));
            var a, b := LayerAt(ctx, p[i]), LayerAt(ctx, p[j]);
            && a in rank && b in rank && rank[b] <= rank[a]
            && (rank[b] == rank[a] ==> forall k :: i <= k <= j ==> LayerAt(ctx, p[k]) == a)
    decreases j - i
  {
    hide LayerChain, LayerAt, Height, Adjacency, ValidArch, Reported;
    if i == j {
      ChainLength(ctx, p);
      RankStep(ctx, p, if i + 1 < |p| then i else i - 1);
    } else {
      LayerDescent(ctx, p, i, j - 1);
      RankStep(ctx, p, j - 1);
    }
  }

  lemma ChainLength(ctx: Context, p: seq<string>)
    requires LayerChain(ctx, p)
    ensures |p| >= 2
  {
  }

  lemma RankStep(ctx: Context, p: seq<string>, i: nat)
    requires ValidArch(ctx.arch) && forall f :: !Reported(ctx, f)
    requires LayerChain(ctx, p) && i + 1 < |p|
    ensures var rank := Height(Adjacency(ctx.arch.layers.direction));
            var a, b := LayerAt(ctx, p[i]), LayerAt(ctx, p[i + 1]);
            a in rank && b in rank && (a == b || rank[b] < rank[a])
  {
    hide LayerChain, LayerAt, Adjacency, Reported, Acyclic;
    ChainStep(ctx, p, i);
    AcyclicHasRank(Adjacency(ctx.arch.layers.direction));
  }

  lemma ChainStep(ctx: Context, p: seq<string>, i: nat)
    requires ValidArch(ctx.arch) && forall f :: !Reported(ctx, f)
    requires LayerChain(ctx, p) && i + 1 < |p|
    ensures var a, b := LayerAt(ctx, p[i]), LayerAt(ctx, p[i + 1]);
            && (a == b || Edge(Adjacency(ctx.arch.layers.direction), a, b))
            && a in Nodes(Adjacency(ctx.arch.layers.direction)) && b in Nodes(Adjacency(ctx.arch.layers.direction))
  {
    hide KindOf, ImportRule, UnknownSource, ExcludedPackage, InternalPrefix, Reported, Acyclic;
    assert Imports(ctx, p[i], p[i + 1]);
    AcceptedImport(ctx, p[i], p[i + 1]);
  }

  /** No package returns to a sublayer it has left. */
  lemma NeverReturns(ctx: Context, p: seq<string>, i: nat, k: nat, j: nat)
    ensures
      && ValidArch(ctx.arch) && (forall f :: !Reported(ctx, f)) && LayerChain(ctx, p) && i <= k <= j < |p|
      && LayerAt(ctx, p[i]) == LayerAt(ctx, p[j])
      ==> LayerAt(ctx, p[k]) == LayerAt(ctx, p[i])
  {
    hide ValidArch, Reported, LayerChain, LayerAt, Height;
    if ValidArch(ctx.arch) && (forall f :: !Reported(ctx, f)) && LayerChain(ctx, p) && i <= k <= j < |p| {
      LayerDescent(ctx, p, i, j);
    }
  }

  // Exactly where accepted imports lead.

  /** Layers that a package can be classified into: of one segment, or of two below a domain. */
  predicate Placeable(arch: Arch, layer: string) {
    layer != "" && |Split(layer, '/')| <= if arch.layout.domainDir == "" then 1 else 2
  }

  /** No package is ever in another layer. */
  lemma DomainIsPlaceable(arch: Arch, pkgPath: string, prefix: string)
    requires Classify(arch, pkgPath, prefix).kind == Domain
    ensures Placeable(arch, Classify(arch, pkgPath, prefix).sublayer)
  {
    hide IsUnderInternalDir, IsTransport, HasNested, Split, SplitN;
    var rel := TrimPrefix(pkgPath, prefix);
    if arch.layout.domainDir == "" {
      LeadingParts(rel, 2);
    } else {
      var domain := IdentifyDomain(arch, pkgPath, prefix);
      LeadingParts(TrimPrefix(pkgPath, prefix + arch.layout.domainDir + "/" + domain + "/"), 3);
    }
  }

  lemma LeadingParts(s: string, n: nat)
    requires n >= 2
    ensures var p := SplitN(s, '/', n);
            |Split(p[0], '/')| == 1 && (n >= 3 && |p| >= 2 ==> |Split(p[0] + "/" + p[1], '/')| == 2)
  {
    hide Split, SplitN;
    SplitNPrefix(s, n);
    PartsHaveNoSeparator(s);
    NoSeparator(Split(s, '/')[0]);
    if n >= 3 && |Split(s, '/')| >= 2 {
      SegmentCount(Split(s, '/')[0], Split(s, '/')[1]);
    }
  }

  /** And each of them is some package's layer: that of the package of that name. */
  lemma PlaceableIsIdentified(arch: Arch, prefix: string, d: string, layer: string)
    requires arch.layout.domainDir != "" && '/' !in d && Placeable(arch, layer) && layer in arch.layers.sublayers
    ensures IdentifySublayer(arch, prefix + arch.layout.domainDir + "/" + d + "/" + layer, prefix, d) == layer
  {
    var path := prefix + arch.layout.domainDir + "/" + d + "/" + layer;
    BelowDomainParts(arch, prefix, path, d, layer);
    var p := Split(layer, '/');
    JoinSplit(layer, '/');
    PartsHaveNoSeparator(layer);
    if |p| == 1 {
      assert p == [p[0]] && layer == p[0];
      SplitNNoSep(layer, 3);
    } else {
      assert p == [p[0], p[1]] && p[1..] == [p[1]];
      assert layer == p[0] + "/" + p[1];
      SplitNHead(p[0], p[1], 3);
      SplitNNoSep(p[1], 2);
    }
  }

  /** The directions between such layers. */
  function PlacedDirections(arch: Arch): Graph<string> {
    map l | l in arch.layers.direction && Placeable(arch, l) :: set t | t in arch.layers.direction[l] && Placeable(arch, t)
  }

  /** All directions, if packages can be in every declared layer. */
  lemma AllPlaceable(arch: Arch)
    requires ValidArch(arch) && forall l :: l in arch.layers.sublayers ==> Placeable(arch, l)
    ensures PlacedDirections(arch) == Adjacency(arch.layers.direction)
  {
    hide Placeable, Acyclic;
    var dir, placed := arch.layers.direction, PlacedDirections(arch);
    assert forall l :: l in dir ==> l in dir.Keys && l in arch.layers.sublayers;
    assert placed.Keys == dir.Keys;
    forall l | l in dir
      ensures placed[l] == Adjacency(dir)[l]
    {
      assert forall t :: t in dir[l] ==> t in arch.layers.sublayers;
    }
  }

  /** A package of a declared sublayer of domain d. */
  predicate InSublayer(arch: Arch, c: Classified, d: string) {
    c.kind == Domain && c.domain == d && c.sublayer in arch.layers.sublayers && Placeable(arch, c.sublayer)
  }

  predicate InDomain(arch: Arch, c: Classified, d: string) {
    InSublayer(arch, c, d) || c == Classified(DomainRoot, d, "")
  }

  /** What the rule lets pass: it does not judge a domain root. */
  predicate AcceptedStep(arch: Arch, src: Classified, dst: Classified) {
    src.kind == DomainRoot || CheckImport(arch, src, dst).None?
  }

  ghost predicate AcceptedPath(arch: Arch, cs: seq<Classified>, a: Classified, b: Classified) {
    && |cs| >= 2 && cs[0] == a && cs[|cs| - 1] == b
    && forall i :: 0 <= i < |cs| - 1 ==> AcceptedStep(arch, cs[i], cs[i + 1])
  }

  ghost predicate SublayerPath(arch: Arch, cs: seq<Classified>, a: Classified, b: Classified) {
    AcceptedPath(arch, cs, a, b) && forall i :: 0 <= i < |cs| ==> InSublayer(arch, cs[i], a.domain)
  }

  /** The layers a chain through sublayer packages can get to, its own included. */
  ghost predicate LeadsTo(arch: Arch, s: string, t: string) {
    s == t || Reaches(PlacedDirections(arch), s, t)
  }

  lemma StepFollowsDirection(arch: Arch, src: Classified, dst: Classified)
    requires ValidArch(arch) && InSublayer(arch, src, dst.domain) && InSublayer(arch, dst, dst.domain)
    ensures AcceptedStep(arch, src, dst) <==>
      src.sublayer == dst.sublayer || Edge(PlacedDirections(arch), src.sublayer, dst.sublayer)
  {
    hide Acyclic;
    assert src.sublayer in arch.layers.direction;
    assert dst.sublayer != "";
  }

  lemma {:induction false} SublayerPathLeads(arch: Arch, cs: seq<Classified>, a: Classified, b: Classified, k: nat)
    requires ValidArch(arch) && SublayerPath(arch, cs, a, b) && k < |cs|
    ensures LeadsTo(arch, a.sublayer, cs[k].sublayer)
  {
    hide ValidArch, Reaches, AcceptedStep, PlacedDirections, Edge, Placeable;
    if k > 0 {
      SublayerPathLeads(arch, cs, a, b, k - 1);
      var g, s, t := PlacedDirections(arch), cs[k - 1].sublayer, cs[k].sublayer;
      assert AcceptedStep(arch, cs[k - 1], cs[k - 1 + 1]);
      StepFollowsDirection(arch, cs[k - 1], cs[k]);
      if s != t {
        EdgeReaches(g, s, t);
        if a.sublayer != s {
          ReachesTransitive(g, a.sublayer, s, t);
        }
      }
    }
  }

  /** The packages of domain d, one in each of the given layers. */
  function InLayers(d: string, layers: seq<string>): (cs: seq<Classified>)
    ensures |cs| == |layers|
  {
    seq(|layers|, i requires 0 <= i < |layers| => Classified(Domain, d, layers[i]))
  }

  lemma WalkIsPath(arch: Arch, p: seq<string>, a: Classified, b: Classified)
    requires ValidArch(arch) && InSublayer(arch, a, a.domain) && InSublayer(arch, b, a.domain)
    requires WalkBetween(PlacedDirections(arch), p, a.sublayer, b.sublayer)
    ensures SublayerPath(arch, InLayers(a.domain, p), a, b)
  {
    hide Acyclic;
    var cs := InLayers(a.domain, p);
    forall i | 0 <= i < |cs|
      ensures InSublayer(arch, cs[i], a.domain)
    {
      if i < |cs| - 1 {
        assert Edge(PlacedDirections(arch), p[i], p[i + 1]);
      }
    }
    hide ValidArch, AcceptedStep;
    forall i | 0 <= i < |cs| - 1
      ensures AcceptedStep(arch, cs[i], cs[i + 1])
    {
      assert Edge(PlacedDirections(arch), p[i], p[i + 1]);
      StepFollowsDirection(arch, cs[i], cs[i + 1]);
    }
  }

  /** For packages of a domain this is the rule's verdict on the import. */
  lemma StepIsVerdict(ctx: Context, a: string, b: string, d: string)
    requires HasPrefix(a, InternalPrefix(ctx)) && HasPrefix(b, InternalPrefix(ctx))
    requires InDomain(ctx.arch, KindOf(ctx, a), d) && InDomain(ctx.arch, KindOf(ctx, b), d)
    ensures ImportRule(ctx, a, b).None? <==> AcceptedStep(ctx.arch, KindOf(ctx, a), KindOf(ctx, b))
  {
    hide KindOf, InternalPrefix, CheckImport;
  }

  /** Through sublayer packages, accepted imports lead from one sublayer to another exactly when
      the allowed directions do by way of layers that packages can be in. */
  lemma SublayerPathIff(arch: Arch, a: Classified, b: Classified)
    requires ValidArch(arch) && InSublayer(arch, a, a.domain) && InSublayer(arch, b, a.domain)
    ensures (exists cs :: SublayerPath(arch, cs, a, b)) <==> LeadsTo(arch, a.sublayer, b.sublayer)
  {
    if cs :| SublayerPath(arch, cs, a, b) {
      SublayerPathLeads(arch, cs, a, b, |cs| - 1);
    }
    hide ValidArch, PlacedDirections;
    if a.sublayer == b.sublayer {
      StepFollowsDirection(arch, a, b);
      assert SublayerPath(arch, [a, b], a, b);
    } else if LeadsTo(arch, a.sublayer, b.sublayer) {
      var p :| WalkBetween(PlacedDirections(arch), p, a.sublayer, b.sublayer);
      WalkIsPath(arch, p, a, b);
    }
  }

  /** Through the domain root they lead from every sublayer to every other one. */
  lemma RootConnectsAll(arch: Arch, a: Classified, b: Classified)
    requires arch.layout.domainDir != "" && InSublayer(arch, a, a.domain) && InSublayer(arch, b, a.domain)
    ensures exists cs :: AcceptedPath(arch, cs, a, b) && forall i :: 0 <= i < |cs| ==> InDomain(arch, cs[i], a.domain)
  {
    var root := Classified(DomainRoot, a.domain, "");
    var cs := [a, root, b];
    assert AcceptedStep(arch, cs[0], cs[1]) && AcceptedStep(arch, cs[1], cs[2]);
    assert AcceptedPath(arch, cs, a, b);
    assert InDomain(arch, cs[0], a.domain) && InDomain(arch, cs[1], a.domain) && InDomain(arch, cs[2], a.domain);
  }

  /** The domain root is the way round: nothing it imports is judged, and a declared sublayer may
      import it, so chains through it may climb. */
  lemma RootIsUnchecked(ctx: Context, root: string, a: string, b: string)
    requires ctx.arch.layout.domainDir != "" && KindOf(ctx, root).kind == DomainRoot
    ensures ImportRule(ctx, root, b).None?
    ensures KindOf(ctx, a).domain == KindOf(ctx, root).domain ==> ImportRule(ctx, a, root).None?
  {
    RootHasNoSublayer(ctx.arch, root, InternalPrefix(ctx));
    hide Classify, InternalPrefix;
  }

  lemma RootHasNoSublayer(arch: Arch, pkgPath: string, prefix: string)
    requires Classify(arch, pkgPath, prefix).kind == DomainRoot
    ensures Classify(arch, pkgPath, prefix).sublayer == ""
  {
    hide IsUnderInternalDir, IsTransport, IdentifyDomain, IdentifySublayer, TrimPrefix, SplitN, HasPrefix;
  }

  // A clean project whose layers form a loop through the domain root.

  function LoopArch(): Arch {
    Arch(LayerModel(["l", "k"], map["l" := ["k"], "k" := []], [], [], map[], {}, {}),
         LayoutModel("i", "d", "", "", "", ""), StructurePolicy(true, [], {}))
  }

  function LoopProject(): Context {
    Context([Package("m/i/d/x/l", {"m/i/d/x/k"}), Package("m/i/d/x/k", {"m/i/d/x"}),
             Package("m/i/d/x", {"m/i/d/x/l"})], "m", LoopArch(), [])
  }

  lemma LoopArchIsValid()
    ensures ValidArch(LoopArch())
  {
    var l := LoopArch().layers;
    var g := Adjacency(l.direction);
    assert l.direction.Keys == {"l", "k"} && l.direction["l"] == ["k"] && l.direction["k"] == [];
    assert l.sublayers[0] == "l" && l.sublayers[1] == "k";
    var rank: map<string, nat> := map["l" := 1, "k" := 0];
    assert "l" != "k" && rank["k"] == 0 && rank["l"] == 1;
    hide Acyclic;
    assert Ranks(g, rank) by {
      forall a, b | Edge(g, a, b)
        ensures a == "l" && b == "k"
      {
      }
    }
    AcyclicIffRanked(g);
  }

  lemma LoopLayerKind(ctx: Context, layer: string)
    requires ctx == LoopProject() && (layer == "l" || layer == "k")
    ensures KindOf(ctx, "m/i/d/x/" + layer) == Classified(Domain, "x", layer)
    ensures HasPrefix("m/i/d/x/" + layer, InternalPrefix(ctx))
  {
    var path := "m/i/d/x/" + layer;
    assert InternalPrefix(ctx) == "m/i/";
    assert path == "m/i/" + "d" + "/" + "x" + "/" + layer;
    assert HasPrefix(path, "m/i/");
    hide HasPrefix, SplitN, TrimPrefix;
    BelowDomainParts(ctx.arch, "m/i/", path, "x", layer);
    SplitNNoSep(layer, 3);
  }

  lemma LoopRootKind(ctx: Context)
    requires ctx == LoopProject()
    ensures KindOf(ctx, "m/i/d/x") == Classified(DomainRoot, "x", "")
    ensures HasPrefix("m/i/d/x", InternalPrefix(ctx))
  {
    assert InternalPrefix(ctx) == "m/i/";
    assert "m/i/d/x"[4..] == "d/x" && "d/x"[2..] == "x";
    SplitNNoSep("x", 2);
    assert InternalPrefix(ctx) + "d" + "/" + "x" + "/" == "m/i/d/x/";
  }

  lemma LoopImports(ctx: Context, a: string, b: string)
    requires ctx == LoopProject()
    ensures Imports(ctx, a, b) <==> (a, b) in {("m/i/d/x/l", "m/i/d/x/k"), ("m/i/d/x/k", "m/i/d/x"), ("m/i/d/x", "m/i/d/x/l")}
  {
    assert ctx.pkgs[0] == Package("m/i/d/x/l", {"m/i/d/x/k"});
    assert ctx.pkgs[1] == Package("m/i/d/x/k", {"m/i/d/x"}) && ctx.pkgs[2] == Package("m/i/d/x", {"m/i/d/x/l"});
  }

  lemma LoopIsClean(ctx: Context, f: Finding)
    requires ctx == LoopProject()
    ensures !Reported(ctx, f)
  {
    hide KindOf, InternalPrefix, HasPrefix, ExcludedPackage;
    LoopLayerKind(ctx, "l");
    LoopLayerKind(ctx, "k");
    LoopRootKind(ctx);
    assert "m/i/d/x/" + "l" == "m/i/d/x/l" && "m/i/d/x/" + "k" == "m/i/d/x/k";
    LoopImports(ctx, f.pkg, f.imp);
    assert "l" != "k" && "k" in ["k"] && ctx.arch.layers.sublayers[0] == "l" && ctx.arch.layers.sublayers[1] == "k";
    assert "k" in ctx.arch.layers.direction["l"] by { assert ctx.arch.layers.direction["l"][0] == "k"; }
  }

  /** The chain l -> k -> root -> l of a clean project is back in the sublayer it left, so the
      restriction of the theorem to sublayer packages cannot be dropped. */
  lemma RootClosesLoop() returns (ctx: Context, p: seq<string>)
    ensures ValidArch(ctx.arch) && forall f :: !Reported(ctx, f)
    ensures ImportChain(ctx, p) && |p| == 4
    ensures forall i :: 0 <= i < |p| ==> IsDomainKind(KindOf(ctx, p[i]).kind) && KindOf(ctx, p[i]).domain == "x"
    ensures LayerAt(ctx, p[0]) == LayerAt(ctx, p[3]) == "l" && LayerAt(ctx, p[1]) == "k"
  {
    hide KindOf, InternalPrefix, Reported, ValidArch;
    ctx := LoopProject();
    p := ["m/i/d/x/l", "m/i/d/x/k", "m/i/d/x", "m/i/d/x/l"];
    LoopArchIsValid();
    forall f
      ensures !Reported(ctx, f)
    {
      LoopIsClean(ctx, f);
    }
    LoopLayerKind(ctx, "l");
    LoopLayerKind(ctx, "k");
    LoopRootKind(ctx);
    assert "m/i/d/x/" + "l" == "m/i/d/x/l" && "m/i/d/x/" + "k" == "m/i/d/x/k";
    forall i | 0 <= i < 3
      ensures Imports(ctx, p[i], p[i + 1])
    {
      LoopImports(ctx, p[i], p[i + 1]);
    }
  }
}
