/** What each import rule says of one import, verdict by verdict, by where its two ends are. */
module ImportVerdicts {
  import opened Architecture
  import opened Classifiers
  import opened DependencyRules
  import opened GoStrings
  import opened Options
  import opened PackageKinds
  import opened ProjectContext
  import Isolation
  import LayerDirection

  predicate InTree(ctx: Context, path: string) {
    Begins(path, ctx.moduleName + "/" + ctx.arch.layout.internalRoot + "/")
  }

  predicate Command(ctx: Context, path: string) {
    path == ctx.moduleName + "/cmd" || Begins(path, ctx.moduleName + "/cmd/")
  }

  lemma InTreeIff(ctx: Context, path: string)
    ensures HasPrefix(path, InternalPrefix(ctx)) <==> InTree(ctx, path)
    ensures Isolation.UnderCmd(ctx.moduleName, path) <==> Command(ctx, path)
  {
    assert ctx.moduleName + "/cmd" + "/" == ctx.moduleName + "/cmd/";
  }

  // Isolation.

  /** Who is judged by the boundaries: packages of the internal tree that are neither commands nor
      composition roots. */
  predicate Judged(ctx: Context, a: string, b: string) {
    !Command(ctx, a) && InTree(ctx, a) && InTree(ctx, b) && KindOf(ctx, a).kind != App
  }

  /** Imports of anything outside the internal tree are never reported, nor any by a package that is
      neither in it nor a command, nor any by a composition root. A command is reported exactly for
      an import from below a domain where aliases are required. */
  lemma IsolationElsewhere(ctx: Context, a: string, b: string)
    ensures !InTree(ctx, b) ==> Isolation.ImportRule(ctx, a, b) == None
    ensures !InTree(ctx, a) && !Command(ctx, a) ==> Isolation.ImportRule(ctx, a, b) == None
    ensures KindOf(ctx, a).kind == App && !Command(ctx, a) ==> Isolation.ImportRule(ctx, a, b) == None
    ensures Command(ctx, a) ==>
              Isolation.ImportRule(ctx, a, b) ==
              if ctx.arch.structure.requireAlias && InTree(ctx, b) && KindOf(ctx, b).kind == Domain then Some(CmdDeepImport) else None
  {
    InTreeIff(ctx, a);
    InTreeIff(ctx, b);
    hide Isolation.UnderCmd, InternalPrefix, InTree, Command, Classify, Isolation.CheckInternalImport, HasPrefix;
  }

  predicate OfDomain(c: Classified) {
    c.kind == Domain || c.kind == DomainRoot
  }

  /** The boundary that each verdict of the rule names, for a layout with domains. */
  predicate Crosses(requireAlias: bool, src: Classified, dst: Classified, rule: Rule) {
    match rule
    case CrossDomain => OfDomain(src) && OfDomain(dst) && src.domain != dst.domain
    case DomainImportsComposition => OfDomain(src) && (dst.kind == App || dst.kind == Transport)
    case DomainImportsOrchestration => OfDomain(src) && dst.kind == Orchestration
    case OrchestrationDeepImport => src.kind == Orchestration && dst.kind == Domain && requireAlias
    case PkgImportsDomain => src.kind == Shared && OfDomain(dst)
    case PkgImportsOrchestration => src.kind == Shared && dst.kind == Orchestration
    case StrayImportsDomain => src.kind == Unclassified && OfDomain(dst)
    case StrayImportsOrchestration => src.kind == Unclassified && dst.kind == Orchestration
    case TransportImportsDomain => src.kind == Transport && OfDomain(dst)
    case TransportImportsOrchestration => src.kind == Transport && dst.kind == Orchestration
    case TransportImportsUnclassified => src.kind == Transport && dst.kind == Unclassified
    case _ => false
  }

  lemma CrossesIff(requireAlias: bool, src: Classified, dst: Classified, rule: Rule)
    requires Isolation.Proper(src) && Isolation.Proper(dst) && src.kind != App
    ensures Isolation.CheckInternalImport(requireAlias, src, dst) == Some(rule) <==> Crosses(requireAlias, src, dst, rule)
  {
    Isolation.ImportMatrix(requireAlias, src, dst);
    hide Isolation.CheckInternalImport;
  }

  /** Every verdict about the internal tree: a rule is broken exactly where its boundary is crossed. */
  lemma IsolationVerdict(ctx: Context, a: string, b: string, rule: Rule)
    requires ctx.arch.layout.domainDir != "" && Judged(ctx, a, b)
    ensures Isolation.ImportRule(ctx, a, b) == Some(rule) <==>
            Crosses(ctx.arch.structure.requireAlias, KindOf(ctx, a), KindOf(ctx, b), rule)
  {
    InTreeIff(ctx, a);
    InTreeIff(ctx, b);
    KindsAreProper(ctx, a);
    KindsAreProper(ctx, b);
    CrossesIff(ctx.arch.structure.requireAlias, KindOf(ctx, a), KindOf(ctx, b), rule);
    hide Isolation.UnderCmd, InternalPrefix, InTree, Command, Classify, HasPrefix, Isolation.CheckInternalImport, Crosses;
  }

  lemma KindsAreProper(ctx: Context, path: string)
    requires ctx.arch.layout.domainDir != ""
    ensures Isolation.Proper(KindOf(ctx, path))
  {
    hide IdentifyDomain, IdentifySublayer, IsUnderInternalDir, IsTransport;
  }

  // Layer direction.

  /** Whose imports are looked at: packages of the internal tree that are in a declared sublayer. */
  predicate Layered(ctx: Context, a: string) {
    InTree(ctx, a) && KindOf(ctx, a).kind == Domain && KindOf(ctx, a).sublayer in ctx.arch.layers.sublayers
  }

  /** Both in sublayers of one domain. */
  predicate SiblingLayers(ctx: Context, a: string, b: string) {
    InTree(ctx, b) && KindOf(ctx, b).kind == Domain && KindOf(ctx, b).domain == KindOf(ctx, a).domain
  }

  predicate Misdirected(ctx: Context, a: string, b: string) {
    var src, dst, direction := KindOf(ctx, a).sublayer, KindOf(ctx, b).sublayer, ctx.arch.layers.direction;
    src != dst && src in direction && dst !in direction[src]
  }

  /** Each verdict of the rule. Nothing else is reported: not an import from outside the tree, of
      another domain, of a domain root or of any other directory, and not a shared package imported
      by an unrestricted sublayer. */
  lemma LayerVerdict(ctx: Context, a: string, b: string, rule: Rule)
    ensures LayerDirection.ImportRule(ctx, a, b) == Some(rule) <==>
            (&& Layered(ctx, a)
             && match rule
                case InnerImportsPkg =>
                  && InTree(ctx, b) && KindOf(ctx, b).kind == Shared
                  && KindOf(ctx, a).sublayer in ctx.arch.layers.pkgRestricted && ctx.arch.layers.pkgRestricted[KindOf(ctx, a).sublayer]
                case UnknownSublayer => SiblingLayers(ctx, a, b) && KindOf(ctx, b).sublayer !in ctx.arch.layers.sublayers
                case InvalidImportDirection =>
                  SiblingLayers(ctx, a, b) && KindOf(ctx, b).sublayer in ctx.arch.layers.sublayers && Misdirected(ctx, a, b)
                case _ => false)
  {
    InTreeIff(ctx, a);
    InTreeIff(ctx, b);
    LayersAreNamed(ctx, a);
    LayersAreNamed(ctx, b);
    hide InternalPrefix, InTree, KindOf, HasPrefix;
  }

  /** Only packages in a sublayer have one, and only packages of a domain have that. */
  lemma LayersAreNamed(ctx: Context, path: string)
    ensures KindOf(ctx, path).kind == Domain <==> KindOf(ctx, path).sublayer != ""
    ensures KindOf(ctx, path).kind != Cmd
    ensures ctx.arch.layout.domainDir == "" && KindOf(ctx, path).kind == Domain ==>
              KindOf(ctx, path).sublayer in ctx.arch.layers.sublayers && KindOf(ctx, path).domain == ""
    ensures ctx.arch.layout.domainDir != "" ==> (KindOf(ctx, path).domain != "" <==> OfDomain(KindOf(ctx, path)))
    ensures ctx.arch.layout.domainDir == "" ==> KindOf(ctx, path).kind != DomainRoot
  {
    hide IdentifyDomain, IdentifySublayer, IsUnderInternalDir, IsTransport, SplitN;
  }

  /** A package is reported itself exactly if its sublayer is not declared, where domains exist. */
  lemma UnknownSourceIff(ctx: Context, a: string)
    ensures LayerDirection.UnknownSource(ctx, a) <==>
            InTree(ctx, a) && KindOf(ctx, a).kind == Domain && KindOf(ctx, a).sublayer !in ctx.arch.layers.sublayers
  {
    InTreeIff(ctx, a);
    LayersAreNamed(ctx, a);
    hide InternalPrefix, InTree, KindOf, HasPrefix;
  }

  // Whether either rule looks at a package, and whether it runs at all.

  /** A package of the module is excluded by the part of its path behind the module name, and the
      module's own package as ".". */
  lemma ExcludedByPath(ctx: Context, rel: string)
    requires ctx.moduleName != "" && Canonical(rel)
    ensures ExcludedPackage(ctx, ctx.moduleName + "/" + rel) <==> exists i :: 0 <= i < |ctx.exclude| && MatchExclude(ctx.exclude[i], rel)
    ensures ExcludedPackage(ctx, ctx.moduleName) <==> exists i :: 0 <= i < |ctx.exclude| && MatchExclude(ctx.exclude[i], ".")
  {
    CanonicalUnchanged(rel);
    RootIsNotCanonical();
    Behind(ctx.moduleName + "/", rel);
    hide Normalize, MatchExclude, Canonical;
  }

  lemma CanonicalUnchanged(p: string)
    requires Canonical(p)
    ensures Normalize(p) == p
  {
    SpellsItself(p);
    NormalizeIffSpelling(p, p);
  }

  /** A backslash anywhere is a slash. */
  lemma BackslashIsSlash(a: string, b: string)
    ensures Normalize(a + "\\" + b) == Normalize(a + "/" + b)
  {
    SlashesEach(a + "\\" + b, a + "/" + b);
    hide Slashes;
  }

  lemma SlashesEach(s: string, t: string)
    requires |s| == |t| && forall i :: 0 <= i < |s| ==> s[i] == t[i] || (s[i] == '\\' && t[i] == '/')
    ensures Slashes(s) == Slashes(t)
  {
  }

  /** Either rule applies exactly if some loaded package is in the module, named, and some in the
      internal tree; isolation only with domains. */
  lemma AppliesIff(ctx: Context)
    ensures LayerDirection.Applies(ctx) <==>
            (&& ctx.moduleName != ""
             && (exists i :: 0 <= i < |ctx.pkgs| && (ctx.pkgs[i].path == ctx.moduleName || Begins(ctx.pkgs[i].path, ctx.moduleName + "/")))
             && exists i :: 0 <= i < |ctx.pkgs| && InTree(ctx, ctx.pkgs[i].path))
    ensures Isolation.Applies(ctx) <==> LayerDirection.Applies(ctx) && ctx.arch.layout.domainDir != ""
  {
    forall i | 0 <= i < |ctx.pkgs|
      ensures HasPrefix(ctx.pkgs[i].path, InternalPrefix(ctx)) <==> InTree(ctx, ctx.pkgs[i].path)
    {
      InTreeIff(ctx, ctx.pkgs[i].path);
    }
    hide InternalPrefix, InTree;
  }
}
