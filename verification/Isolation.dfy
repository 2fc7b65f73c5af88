/** dependency.NewIsolation: each import of an internal package is judged on its own, by the kinds
    of its two ends; what follows for whole import chains is proved below. */
module Isolation {
  import opened Architecture
  import opened Classifiers
  import opened DependencyRules
  import opened GoStrings
  import opened Options
  import opened ProjectContext

  // The decision about one import.

  predicate IsSameDomain(a: Classified, b: Classified) {
    IsDomainKind(a.kind) && IsDomainKind(b.kind) && a.domain != "" && a.domain == b.domain
  }

  predicate IsCrossDomain(a: Classified, b: Classified) {
    IsDomainKind(a.kind) && IsDomainKind(b.kind) && a.domain != "" && b.domain != "" && a.domain != b.domain
  }

  function CheckTransportImport(imp: Classified): Option<Rule> {
    match imp.kind
    case Domain | DomainRoot => Some(TransportImportsDomain)
    case Orchestration => Some(TransportImportsOrchestration)
    case Unclassified => Some(TransportImportsUnclassified)
    case _ => None
  }

  function CheckSharedImport(imp: Classified): Option<Rule> {
    if IsDomainKind(imp.kind) then Some(PkgImportsDomain)
    else if imp.kind == Orchestration then Some(PkgImportsOrchestration)
    else None
  }

  function CheckInternalImport(requireAlias: bool, src: Classified, imp: Classified): Option<Rule> {
    if IsDomainKind(src.kind) && (imp.kind == App || imp.kind == Transport) then Some(DomainImportsComposition)
    else if imp.kind == Shared && src.kind != Shared then None
    else if src.kind == Transport then CheckTransportImport(imp)
    else if IsSameDomain(src, imp) then None
    else if src.kind == Orchestration then
      if imp.kind != Domain || !requireAlias then None else Some(OrchestrationDeepImport)
    else if src.kind == Shared && CheckSharedImport(imp).Some? then CheckSharedImport(imp)
    else if imp.kind == Orchestration then
      if IsDomainKind(src.kind) then Some(DomainImportsOrchestration) else Some(StrayImportsOrchestration)
    else if IsCrossDomain(src, imp) then Some(CrossDomain)
    else if src.kind == Unclassified && IsDomainKind(imp.kind) then Some(StrayImportsDomain)
    else None
  }

  predicate UnderCmd(moduleName: string, pkgPath: string) {
    SameOrUnder(pkgPath, moduleName + "/cmd")
  }

  /** What Check reports about one import of a package that is not excluded. */
  function ImportRule(ctx: Context, pkgPath: string, imp: string): Option<Rule> {
    var prefix := InternalPrefix(ctx);
    var requireAlias := ctx.arch.structure.requireAlias;
    var src := Classify(ctx.arch, pkgPath, prefix);
    var dst := Classify(ctx.arch, imp, prefix);
    if UnderCmd(ctx.moduleName, pkgPath) then
      if requireAlias && HasPrefix(imp, prefix) && dst.kind == Domain then Some(CmdDeepImport) else None
    else if !HasPrefix(pkgPath, prefix) || src.kind == App || !HasPrefix(imp, prefix) then None
    else CheckInternalImport(requireAlias, src, dst)
  }

  // The rule over a project.

  ghost predicate Reported(ctx: Context, f: Finding) {
    Imports(ctx, f.pkg, f.imp) && !ExcludedPackage(ctx, f.pkg) && ImportRule(ctx, f.pkg, f.imp) == Some(f.rule)
  }

  /** The findings about one package's imports, which Go ranges over in any order. */
  method CheckPackage(ctx: Context, pkg: Package) returns (vs: seq<Finding>)
    ensures forall f :: f in vs <==> f.pkg == pkg.path && f.imp in pkg.imports && ImportRule(ctx, pkg.path, f.imp) == Some(f.rule)
    ensures NoRepeats(vs)
  {
    hide ImportRule;
    vs := [];
    var rest := pkg.imports;
    while rest != {}
      invariant rest <= pkg.imports
      invariant forall f :: f in vs <==> f.pkg == pkg.path && f.imp in pkg.imports - rest && ImportRule(ctx, pkg.path, f.imp) == Some(f.rule)
      invariant NoRepeats(vs)
      decreases rest
    {
      var imp :| imp in rest;
      var rule := ImportRule(ctx, pkg.path, imp);
      if rule.Some? {
        vs := vs + [Finding(rule.value, pkg.path, imp)];
      }
      rest := rest - {imp};
    }
  }

  /** What the loop has collected from the first n packages. */
  ghost predicate Collected(ctx: Context, n: nat, f: Finding)
    requires n <= |ctx.pkgs|
  {
    && !ExcludedPackage(ctx, f.pkg) && ImportRule(ctx, f.pkg, f.imp) == Some(f.rule)
    && exists i :: 0 <= i < n && ctx.pkgs[i].path == f.pkg && f.imp in ctx.pkgs[i].imports
  }

  method CheckPackages(ctx: Context) returns (vs: seq<Finding>)
    ensures forall f :: f in vs <==> Reported(ctx, f)
    ensures DistinctPackages(ctx) ==> NoRepeats(vs)
  {
    hide ImportRule, ExcludedPackage;
    vs := [];
    for n := 0 to |ctx.pkgs|
      invariant forall f :: f in vs <==> Collected(ctx, n, f)
      invariant DistinctPackages(ctx) ==> NoRepeats(vs)
    {
      var pkg := ctx.pkgs[n];
      var excluded := IsExcluded(ctx, RelativePath(pkg.path, ctx.moduleName));
      ExcludedMeaning(ctx, pkg.path);
      var found := [];
      if !excluded {
        found := CheckPackage(ctx, pkg);
      }
      if DistinctPackages(ctx) {
        assert forall i :: 0 <= i < n ==> ctx.pkgs[i].path != pkg.path;
        ConcatNoRepeats(vs, found);
      }
      vs := vs + found;
    }
  }

  /** The module has loaded packages, some of them under the internal root, and domains exist. */
  predicate Applies(ctx: Context) {
    ctx.arch.layout.domainDir != "" && ModuleMatches(ctx) && HasInternal(ctx)
  }

  /** The reason a run gives when the rule does not apply; earlier guards win. */
  function Notice(ctx: Context): Rule {
    if ctx.arch.layout.domainDir == "" then MetaRuleDisabled
    else if !ModuleMatches(ctx) then MetaNoMatchingPackages
    else MetaLayoutNotSupported
  }

  /** Isolation.Check: where the rule applies the dependency findings are exactly the forbidden
      imports of packages that are not excluded; elsewhere one meta notice says why. */
  method Check(ctx: Context) returns (vs: seq<Finding>)
    ensures !Applies(ctx) ==> vs == [Finding(Notice(ctx), "", "")]
    ensures Applies(ctx) ==> forall f :: f in vs && !IsMeta(f.rule) <==> Reported(ctx, f)
    ensures Applies(ctx) ==> ((exists f :: f in vs && IsMeta(f.rule)) <==> !ctx.arch.structure.requireAlias)
    ensures DistinctPackages(ctx) ==> NoRepeats(vs)
    ensures Applies(ctx) ==> (Clean(vs) <==> forall f :: !Reported(ctx, f))
  {
    hide ImportRule, ExcludedPackage, Imports, InternalPrefix;
    if ctx.arch.layout.domainDir == "" {
      return [Finding(MetaRuleDisabled, "", "")];
    }
    if !ModuleMatches(ctx) {
      return [Finding(MetaNoMatchingPackages, "", "")];
    }
    if !HasInternal(ctx) {
      return [Finding(MetaLayoutNotSupported, "", "")];
    }
    var found := CheckPackages(ctx);
    forall f | f in found
      ensures !IsMeta(f.rule)
    {
      NeverMeta(ctx, f);
    }
    var notice := if ctx.arch.structure.requireAlias then [] else [Finding(MetaRuleDisabled, "", "")];
    if DistinctPackages(ctx) {
      ConcatNoRepeats(notice, found);
    }
    vs := notice + found;
    CleanMeaning(ctx, vs);
  }

  lemma NeverMeta(ctx: Context, f: Finding)
    ensures Reported(ctx, f) ==> !IsMeta(f.rule)
  {
    hide Classify, UnderCmd, HasPrefix, ExcludedPackage, InternalPrefix;
  }

  lemma CleanMeaning(ctx: Context, vs: seq<Finding>)
    requires forall f :: f in vs && !IsMeta(f.rule) <==> Reported(ctx, f)
    ensures Clean(vs) <==> forall f :: !Reported(ctx, f)
  {
    if Clean(vs) {
      forall f
        ensures !Reported(ctx, f)
      {
        assert !(f in vs && !IsMeta(f.rule));
      }
    }
    if forall f :: !Reported(ctx, f) {
      forall i | 0 <= i < |vs|
        ensures IsMeta(vs[i].rule)
      {
        assert !Reported(ctx, vs[i]);
        assert vs[i] in vs;
      }
    }
  }

  /** Which imports between two internal packages are accepted, by the kind of the importer. The
      composition root's own imports are never judged. */
  predicate Accepts(requireAlias: bool, src: Classified, dst: Classified) {
    match src.kind
    case Domain | DomainRoot => dst.kind == Shared || dst.kind == Unclassified || IsSameDomain(src, dst)
    case Shared | Unclassified => dst.kind != Orchestration && !IsDomainKind(dst.kind)
    case Transport => dst.kind == App || dst.kind == Shared || dst.kind == Transport
    case Orchestration => requireAlias ==> dst.kind != Domain
    case App | Cmd => true
  }

  /** The violation that names the boundary a forbidden import crosses. */
  function BoundaryRule(src: Kind, dst: Kind): Rule {
    match dst
    case App | Transport => DomainImportsComposition
    case Unclassified => TransportImportsUnclassified
    case Orchestration =>
      if src == Transport then TransportImportsOrchestration
      else if src == Shared then PkgImportsOrchestration
      else if IsDomainKind(src) then DomainImportsOrchestration
      else StrayImportsOrchestration
    case _ =>
      if src == Transport then TransportImportsDomain
      else if src == Shared then PkgImportsDomain
      else if src == Orchestration then OrchestrationDeepImport
      else if src == Unclassified then StrayImportsDomain
      else CrossDomain
  }

  /** The order of the checks amounts to this matrix. */
  lemma ImportMatrix(requireAlias: bool, src: Classified, dst: Classified)
    requires Proper(src) && Proper(dst) && src.kind != App
    ensures CheckInternalImport(requireAlias, src, dst)
         == if Accepts(requireAlias, src, dst) then None else Some(BoundaryRule(src.kind, dst.kind))
  {
  }

  // The documented import matrix.

  /** What Check decides by kind, commands and composition roots included. */
  function Decide(requireAlias: bool, src: Classified, dst: Classified): Option<Rule> {
    match src.kind
    case Cmd => if requireAlias && dst.kind == Domain then Some(CmdDeepImport) else None
    case App => None
    case _ => CheckInternalImport(requireAlias, src, dst)
  }

  function SourceKind(ctx: Context, pkgPath: string): Classified {
    if UnderCmd(ctx.moduleName, pkgPath) then Only(Cmd) else KindOf(ctx, pkgPath)
  }

  lemma ImportRuleIsDecide(ctx: Context, a: string, b: string)
    requires UnderCmd(ctx.moduleName, a) || HasPrefix(a, InternalPrefix(ctx))
    requires HasPrefix(b, InternalPrefix(ctx))
    ensures ImportRule(ctx, a, b) == Decide(ctx.arch.structure.requireAlias, SourceKind(ctx, a), KindOf(ctx, b))
  {
    hide CheckInternalImport, InternalPrefix, UnderCmd;
    NeverCmd(ctx.arch, a, InternalPrefix(ctx));
  }

  lemma NeverCmd(arch: Arch, pkgPath: string, prefix: string)
    ensures Classify(arch, pkgPath, prefix).kind != Cmd
  {
  }

  /** A kind that is a row of the matrix. */
  predicate DocumentedRow(c: Classified) {
    c.kind != Unclassified && (IsDomainKind(c.kind) ==> c.domain != "")
  }

  /** A kind that is a column. */
  predicate DocumentedColumn(c: Classified) {
    c.kind != Unclassified && c.kind != Cmd && (IsDomainKind(c.kind) ==> c.domain != "")
  }

  /** The "Yes" cells, row by row. */
  predicate Documented(src: Classified, dst: Classified) {
    match src.kind
    case Domain | DomainRoot =>
      if IsDomainKind(dst.kind) then src.domain == dst.domain else dst.kind == Shared
    case Orchestration | Cmd => dst.kind == DomainRoot || dst.kind == Orchestration || dst.kind == Shared
    case Shared => dst.kind == Shared
    case App => IsDomainKind(dst.kind) || dst.kind == Orchestration || dst.kind == Shared || dst.kind == App
    case Transport => dst.kind == Shared || dst.kind == App || dst.kind == Transport
    case Unclassified => false
  }

  /** The "No" cells that the code accepts: composition root and transport, imported from
      orchestration, commands and shared packages, and transport from the composition root. */
  predicate UndocumentedYes(src: Kind, dst: Kind) {
    || ((src == Orchestration || src == Cmd || src == Shared) && (dst == App || dst == Transport))
    || (src == App && dst == Transport)
  }

  /** The cells that open when RequireAlias is off. */
  predicate AliasOnly(src: Kind, dst: Kind) {
    (src == Orchestration || src == Cmd) && dst == Domain
  }

  /** Every cell of the matrix: the code accepts what is documented, seven cells more, and without
      RequireAlias two more again. */
  lemma DecideIffDocumented(requireAlias: bool, src: Classified, dst: Classified)
    requires DocumentedRow(src) && DocumentedColumn(dst)
    ensures Decide(requireAlias, src, dst).None? <==>
      Documented(src, dst) || UndocumentedYes(src.kind, dst.kind) || (!requireAlias && AliasOnly(src.kind, dst.kind))
    ensures Documented(src, dst) ==> !UndocumentedYes(src.kind, dst.kind) && !AliasOnly(src.kind, dst.kind)
  {
  }

  /** The same for the imports of a project. */
  lemma ImportRuleIffDocumented(ctx: Context, a: string, b: string)
    requires UnderCmd(ctx.moduleName, a) || HasPrefix(a, InternalPrefix(ctx))
    requires HasPrefix(b, InternalPrefix(ctx))
    requires DocumentedRow(SourceKind(ctx, a)) && DocumentedColumn(KindOf(ctx, b))
    ensures var src, dst := SourceKind(ctx, a), KindOf(ctx, b);
            ImportRule(ctx, a, b).None? <==>
              || Documented(src, dst) || UndocumentedYes(src.kind, dst.kind)
              || (!ctx.arch.structure.requireAlias && AliasOnly(src.kind, dst.kind))
  {
    hide *;
    ImportRuleIsDecide(ctx, a, b);
    DecideIffDocumented(ctx.arch.structure.requireAlias, SourceKind(ctx, a), KindOf(ctx, b));
  }

  // What the local decision says about whole chains.

  /** A classification that can occur when domains exist. */
  predicate Proper(c: Classified) {
    c.kind != Cmd && (IsDomainKind(c.kind) ==> c.domain != "")
  }

  /** Where the app-free imports of a clean project can lead from a package that is neither
      orchestration nor composition root: into its own domain, or out of all domains. */
  predicate Confined(src: Classified, dst: Classified) {
    || IsSameDomain(src, dst)
    || dst.kind == Shared || dst.kind == Unclassified || dst.kind == Transport
  }

  /** Every step is an import the rule accepts, and no step touches a composition root. */
  ghost predicate AcceptedPath(requireAlias: bool, cs: seq<Classified>) {
    && |cs| >= 2
    && (forall i :: 0 <= i < |cs| ==> Proper(cs[i]) && cs[i].kind != App)
    && (forall i :: 0 <= i < |cs| - 1 ==> CheckInternalImport(requireAlias, cs[i], cs[i + 1]).None?)
  }

  lemma AcceptedStep(requireAlias: bool, src: Classified, mid: Classified, dst: Classified)
    requires Proper(src) && Proper(mid) && Proper(dst) && src.kind != Orchestration && src.kind != App
    requires mid.kind != App && dst.kind != App
    requires src == mid || Confined(src, mid)
    requires CheckInternalImport(requireAlias, mid, dst).None?
    ensures Confined(src, dst) && mid.kind != Orchestration
  {
  }

  lemma {:induction false} AcceptedPathIsConfined(requireAlias: bool, cs: seq<Classified>, k: nat)
    requires AcceptedPath(requireAlias, cs) && cs[0].kind != Orchestration && 1 <= k < |cs|
    ensures Confined(cs[0], cs[k])
  {
    if k > 1 {
      AcceptedPathIsConfined(requireAlias, cs, k - 1);
    }
    assert CheckInternalImport(requireAlias, cs[k - 1], cs[k - 1 + 1]).None?;
    AcceptedStep(requireAlias, cs[0], cs[k - 1], cs[k]);
  }

  /** The confinement is exact: every place it names can be reached through accepted imports,
      even where the direct import is forbidden (transport to unclassified, domain to transport).
      Shared packages are the way there. */
  lemma AcceptedPathIffConfined(requireAlias: bool, src: Classified, dst: Classified)
    requires Proper(src) && Proper(dst) && src.kind != Orchestration && src.kind != App && dst.kind != App
    ensures (exists cs :: AcceptedPath(requireAlias, cs) && cs[0] == src && cs[|cs| - 1] == dst) <==> Confined(src, dst)
  {
    if cs :| AcceptedPath(requireAlias, cs) && cs[0] == src && cs[|cs| - 1] == dst {
      AcceptedPathIsConfined(requireAlias, cs, |cs| - 1);
    }
    if Confined(src, dst) {
      AcceptedIn(requireAlias, src, Only(Shared), dst);
    }
  }

  lemma ThroughUnclassified(requireAlias: bool, src: Classified, dst: Classified)
    requires Proper(src) && Proper(dst) && ConfinedUnshared(src, dst)
    requires src.kind != Orchestration && src.kind != App && src.kind != Shared && dst.kind != App
    ensures var mid := Only(Unclassified);
            || CheckInternalImport(requireAlias, src, dst).None?
            || (CheckInternalImport(requireAlias, src, mid).None? && CheckInternalImport(requireAlias, mid, dst).None?)
  {
  }

  predicate Within(cs: seq<Classified>, kinds: set<Classified>) {
    forall i :: 0 <= i < |cs| ==> cs[i] in kinds
  }

  lemma AcceptedIn(requireAlias: bool, src: Classified, mid: Classified, dst: Classified)
    requires Proper(src) && Proper(mid) && Proper(dst) && src.kind != App && mid.kind != App && dst.kind != App
    requires
      || CheckInternalImport(requireAlias, src, dst).None?
      || (CheckInternalImport(requireAlias, src, mid).None? && CheckInternalImport(requireAlias, mid, dst).None?)
    ensures exists cs :: AcceptedPath(requireAlias, cs) && cs[0] == src && cs[|cs| - 1] == dst && Within(cs, {src, mid, dst})
  {
    hide CheckInternalImport, Proper;
    if CheckInternalImport(requireAlias, src, dst).None? {
      var direct := [src, dst];
      assert AcceptedPath(requireAlias, direct) && direct[0] == src && direct[|direct| - 1] == dst;
    } else {
      var through := [src, mid, dst];
      assert through[1] == mid;
      assert AcceptedPath(requireAlias, through) && through[0] == src && through[|through| - 1] == dst;
    }
  }

  /** In a layout without a shared directory no package is shared. Then transport leads to
      transport only, and unclassified packages to unclassified and transport ones. */
  predicate ConfinedUnshared(src: Classified, dst: Classified) {
    && dst.kind != Shared
    && match src.kind
       case Domain | DomainRoot => IsSameDomain(src, dst) || dst.kind == Unclassified || dst.kind == Transport
       case Unclassified => dst.kind == Unclassified || dst.kind == Transport
       case _ => dst.kind == src.kind
  }

  ghost predicate UnsharedPath(requireAlias: bool, cs: seq<Classified>) {
    AcceptedPath(requireAlias, cs) && forall i :: 0 <= i < |cs| ==> cs[i].kind != Shared
  }

  lemma UnsharedStep(requireAlias: bool, src: Classified, mid: Classified, dst: Classified)
    requires Proper(src) && Proper(mid) && Proper(dst)
    requires src.kind != Orchestration && src.kind != App && src.kind != Shared
    requires mid.kind != App && dst.kind != App && mid.kind != Shared && dst.kind != Shared
    requires src == mid || ConfinedUnshared(src, mid)
    requires CheckInternalImport(requireAlias, mid, dst).None?
    ensures ConfinedUnshared(src, dst)
  {
  }

  lemma {:induction false} UnsharedPathIsConfined(requireAlias: bool, cs: seq<Classified>, k: nat)
    requires UnsharedPath(requireAlias, cs) && cs[0].kind != Orchestration && 1 <= k < |cs|
    ensures ConfinedUnshared(cs[0], cs[k])
  {
    if k > 1 {
      UnsharedPathIsConfined(requireAlias, cs, k - 1);
    }
    assert CheckInternalImport(requireAlias, cs[k - 1], cs[k - 1 + 1]).None?;
    UnsharedStep(requireAlias, cs[0], cs[k - 1], cs[k]);
  }

  /** Exact again; unclassified packages are the way from a domain to transport. */
  lemma UnsharedPathIffConfined(requireAlias: bool, src: Classified, dst: Classified)
    requires Proper(src) && Proper(dst)
    requires src.kind != Orchestration && src.kind != App && src.kind != Shared && dst.kind != App
    ensures (exists cs :: UnsharedPath(requireAlias, cs) && cs[0] == src && cs[|cs| - 1] == dst) <==> ConfinedUnshared(src, dst)
  {
    if cs :| UnsharedPath(requireAlias, cs) && cs[0] == src && cs[|cs| - 1] == dst {
      UnsharedPathIsConfined(requireAlias, cs, |cs| - 1);
    }
    if ConfinedUnshared(src, dst) {
      ThroughUnclassified(requireAlias, src, dst);
      hide CheckInternalImport, ConfinedUnshared;
      AcceptedIn(requireAlias, src, Only(Unclassified), dst);
      var cs :| AcceptedPath(requireAlias, cs) && cs[0] == src && cs[|cs| - 1] == dst && Within(cs, {src, Only(Unclassified), dst});
      NoSharedOn(requireAlias, cs, {src, Only(Unclassified), dst});
    }
  }

  lemma NoSharedOn(requireAlias: bool, cs: seq<Classified>, kinds: set<Classified>)
    requires AcceptedPath(requireAlias, cs) && Within(cs, kinds)
    requires forall c :: c in kinds ==> c.kind != Shared
    ensures UnsharedPath(requireAlias, cs)
  {
  }

  /** Whether any package can be shared depends on the layout alone. */
  lemma NoSharedKind(arch: Arch, pkgPath: string, prefix: string)
    requires arch.layout.sharedDir == ""
    ensures Classify(arch, pkgPath, prefix).kind != Shared
  {
  }

  // Projects.

  /** The internal root is not `cmd` or below it. */
  predicate RootOutsideCmd(ctx: Context) {
    !HasPrefix(ctx.arch.layout.internalRoot + "/", "cmd/")
  }

  /** Whether Check takes an internal package for a command depends on the internal root alone. */
  lemma InternalIsCommandIff(ctx: Context, pkgPath: string)
    requires HasPrefix(pkgPath, InternalPrefix(ctx)) && ctx.arch.layout.internalRoot != ""
    ensures UnderCmd(ctx.moduleName, pkgPath) <==> !RootOutsideCmd(ctx)
  {
    var m := ctx.moduleName + "/";
    var root := ctx.arch.layout.internalRoot + "/";
    var rest := pkgPath[|m + root|..];
    var tail := pkgPath[|m|..];
    assert InternalPrefix(ctx) == m + root;
    assert pkgPath == m + (root + rest) && tail == root + rest;
    var cmd := ctx.moduleName + "/cmd";
    assert cmd == m + "cmd" && cmd + "/" == m + "cmd/";
    assert cmd <= pkgPath <==> "cmd" <= tail;
    assert cmd + "/" <= pkgPath <==> "cmd/" <= tail;
    assert pkgPath == cmd <==> tail == "cmd";
    assert root[|root| - 1] == '/';
    if |root| < 4 {
      assert tail[|root| - 1] == '/';
      assert "cmd"[0] != '/' && "cmd"[1] != '/' && "cmd"[2] != '/';
    } else {
      assert tail[..4] == root[..4];
    }
  }

  /** Under a `cmd` internal root the boundaries between internal packages are not enforced at
      all: at most deep imports are reported, and nothing without RequireAlias. */
  lemma CmdRootDisablesIsolation(ctx: Context, a: string, b: string)
    requires HasPrefix(a, InternalPrefix(ctx)) && ctx.arch.layout.internalRoot != "" && !RootOutsideCmd(ctx)
    ensures ImportRule(ctx, a, b).Some? ==> ImportRule(ctx, a, b).value == CmdDeepImport
    ensures !ctx.arch.structure.requireAlias ==> ImportRule(ctx, a, b).None?
  {
    InternalIsCommandIff(ctx, a);
  }

  lemma KindIsProper(ctx: Context, pkgPath: string)
    requires ctx.arch.layout.domainDir != ""
    ensures Proper(KindOf(ctx, pkgPath))
    ensures ctx.arch.layout.appDir == "" ==> KindOf(ctx, pkgPath).kind != App
  {
    ClassIsProper(ctx.arch, pkgPath, InternalPrefix(ctx));
  }

  lemma ClassIsProper(arch: Arch, pkgPath: string, prefix: string)
    requires arch.layout.domainDir != ""
    ensures Proper(Classify(arch, pkgPath, prefix))
    ensures arch.layout.appDir == "" ==> Classify(arch, pkgPath, prefix).kind != App
  {
    NoDirNothingUnder(pkgPath, prefix);
    hide IsUnderInternalDir, IsTransport, IdentifyDomain, IdentifySublayer, TrimPrefix, SplitN, HasPrefix;
  }

  lemma NoDirNothingUnder(pkgPath: string, prefix: string)
    ensures !IsUnderInternalDir(pkgPath, prefix, "")
  {
  }

  /** The boundary the rule is there for: orchestration, or a domain that src is not part of. */
  predicate Beyond(src: Classified, dst: Classified) {
    dst.kind == Orchestration || (IsDomainKind(dst.kind) && !IsSameDomain(src, dst))
  }

  /** A clean project with domains under an internal root that the rule looks at. */
  ghost predicate Isolated(ctx: Context) {
    && ctx.arch.layout.domainDir != "" && ctx.arch.layout.internalRoot != "" && RootOutsideCmd(ctx)
    && forall f :: !Reported(ctx, f)
  }

  /** An import chain from a domain, shared, unclassified or transport package to orchestration or
      into another domain. */
  ghost predicate EscapingChain(ctx: Context, p: seq<string>) {
    && ImportChain(ctx, p)
    && KindOf(ctx, p[0]).kind != Orchestration && KindOf(ctx, p[0]).kind != App
    && Beyond(KindOf(ctx, p[0]), KindOf(ctx, p[|p| - 1]))
  }

  /** In a clean project every escaping chain passes through a composition root. */
  lemma TransitiveIsolation(ctx: Context, p: seq<string>)
    ensures Isolated(ctx) && EscapingChain(ctx, p) ==> exists i :: 0 < i < |p| - 1 && KindOf(ctx, p[i]).kind == App
  {
    if Isolated(ctx) && EscapingChain(ctx, p) {
      EscapeNeedsApp(ctx, p);
    }
  }

  lemma EscapeNeedsApp(ctx: Context, p: seq<string>)
    requires Isolated(ctx) && EscapingChain(ctx, p)
    ensures exists i :: 0 < i < |p| - 1 && KindOf(ctx, p[i]).kind == App
  {
    hide KindOf, ImportRule, CheckInternalImport, InternalPrefix, RootOutsideCmd, ExcludedPackage, Imports;
    var n := |p|;
    var cs := seq(n, i requires 0 <= i < n => KindOf(ctx, p[i]));
    if forall i :: 0 < i < n - 1 ==> cs[i].kind != App {
      forall i | 0 <= i < n
        ensures Proper(cs[i]) && cs[i].kind != App
      {
        KindIsProper(ctx, p[i]);
      }
      forall i | 0 <= i < n - 1
        ensures CheckInternalImport(ctx.arch.structure.requireAlias, cs[i], cs[i + 1]).None?
      {
        assert Imports(ctx, p[i], p[i + 1]) && cs[i].kind != App;
        AcceptedImport(ctx, p[i], p[i + 1]);
      }
      AcceptedPathIsConfined(ctx.arch.structure.requireAlias, cs, n - 1);
    }
  }

  lemma AcceptedImport(ctx: Context, a: string, b: string)
    ensures
      && Isolated(ctx) && HasPrefix(a, InternalPrefix(ctx)) && HasPrefix(b, InternalPrefix(ctx))
      && Imports(ctx, a, b) && !ExcludedPackage(ctx, a) && KindOf(ctx, a).kind != App
      ==> CheckInternalImport(ctx.arch.structure.requireAlias, KindOf(ctx, a), KindOf(ctx, b)).None?
  {
    hide Classify, CheckInternalImport, InternalPrefix, ExcludedPackage;
    if HasPrefix(a, InternalPrefix(ctx)) && Isolated(ctx) {
      InternalIsCommandIff(ctx, a);
    }
    var r := ImportRule(ctx, a, b);
    var f := Finding(if r.Some? then r.value else CrossDomain, a, b);
    assert Isolated(ctx) ==> !Reported(ctx, f);
  }

  /** Without a composition root there is no such chain. */
  lemma NoAppNoEscape(ctx: Context, p: seq<string>)
    ensures Isolated(ctx) && ctx.arch.layout.appDir == "" ==> !EscapingChain(ctx, p)
  {
    hide KindOf;
    if Isolated(ctx) && EscapingChain(ctx, p) {
      EscapeNeedsApp(ctx, p);
      var i :| 0 < i < |p| - 1 && KindOf(ctx, p[i]).kind == App;
      KindIsProper(ctx, p[i]);
    }
  }

  /** The composition root is a genuine exception: any package may get to it through a shared
      package, and whatever it imports is accepted. */
  lemma AppBridgesDomains(ctx: Context, src: Classified, app: string, b: string)
    requires Proper(src) && KindOf(ctx, app).kind == App && !UnderCmd(ctx.moduleName, app)
    ensures CheckInternalImport(ctx.arch.structure.requireAlias, src, Only(Shared)).None?
    ensures CheckInternalImport(ctx.arch.structure.requireAlias, Only(Shared), KindOf(ctx, app)).None?
    ensures ImportRule(ctx, app, b).None?
  {
  }

  // A clean project with a bridge.

  function BridgedArch(): Arch {
    Arch(LayerModel(["l"], map["l" := []], [], [], map[], {}, {}),
         LayoutModel("i", "d", "o", "s", "a", ""), StructurePolicy(true, [], {}))
  }

  function Bridged(): Context {
    Context([Package("m/i/d/x", {"m/i/s"}), Package("m/i/s", {"m/i/a"}),
             Package("m/i/a", {"m/i/d/y"}), Package("m/i/d/y", {})], "m", BridgedArch(), [])
  }

  predicate OneLetterDirs(layout: LayoutModel) {
    && layout.domainDir == "d" && layout.orchestrationDir == "o" && layout.sharedDir == "s"
    && layout.appDir == "a" && layout.serverDir == ""
  }

  lemma DomainRootKind(arch: Arch, prefix: string, name: string)
    requires OneLetterDirs(arch.layout) && '/' !in name && name != ""
    ensures Classify(arch, prefix + "d/" + name, prefix) == Classified(DomainRoot, name, "")
  {
    var path := prefix + "d/" + name;
    var rel := "d/" + name;
    assert path == prefix + rel && path[|prefix|..] == rel && rel[2..] == name;
    SplitNNoSep(name, 2);
    assert IdentifyDomain(arch, path, prefix) == name;
    assert IdentifySublayer(arch, path, prefix, name) == "" by {
      assert |prefix + "d" + "/" + name + "/"| > |path|;
    }
    OtherInitial(prefix, rel, "s");
    OtherInitial(prefix, rel, "o");
    OtherInitial(prefix, rel, "a");
    hide IdentifyDomain, IdentifySublayer, IsUnderInternalDir, SplitN, TrimPrefix;
  }

  lemma OtherInitial(prefix: string, rel: string, dir: string)
    requires rel != "" && dir != "" && rel[0] != dir[0]
    ensures !IsUnderInternalDir(prefix + rel, prefix, dir)
  {
    assert (prefix + rel)[|prefix|..] == rel && (dir + "/")[0] == dir[0];
  }

  lemma BridgedDomainKind(ctx: Context, name: string)
    requires ctx == Bridged() && '/' !in name && name != ""
    ensures KindOf(ctx, "m/i/d/" + name) == Classified(DomainRoot, name, "")
    ensures HasPrefix("m/i/d/" + name, InternalPrefix(ctx))
  {
    hide Classify;
    assert InternalPrefix(ctx) == "m/i/";
    assert "m/i/d/" + name == "m/i/" + "d/" + name;
    DomainRootKind(ctx.arch, "m/i/", name);
  }

  lemma BridgedDirKind(ctx: Context)
    requires ctx == Bridged()
    ensures KindOf(ctx, "m/i/s") == Only(Shared) && KindOf(ctx, "m/i/a") == Only(App)
    ensures HasPrefix("m/i/s", InternalPrefix(ctx)) && HasPrefix("m/i/a", InternalPrefix(ctx))
  {
    assert InternalPrefix(ctx) == "m/i/";
    assert "m/i/s"[4..] == "s" && "m/i/a"[4..] == "a";
    assert "a"[0] == 'a' && ("s" + "/")[0] == 's' && "s"[0] == 's';
  }

  lemma BridgedImports(ctx: Context, a: string, b: string)
    requires ctx == Bridged()
    ensures Imports(ctx, a, b) <==> (a, b) in {("m/i/d/x", "m/i/s"), ("m/i/s", "m/i/a"), ("m/i/a", "m/i/d/y")}
  {
    assert ctx.pkgs[0] == Package("m/i/d/x", {"m/i/s"}) && ctx.pkgs[1] == Package("m/i/s", {"m/i/a"});
    assert ctx.pkgs[2] == Package("m/i/a", {"m/i/d/y"}) && ctx.pkgs[3] == Package("m/i/d/y", {});
  }

  /** Accepted by kind is accepted by the rule, for any internal root but `cmd`. */
  lemma AcceptedByKind(ctx: Context, a: string, b: string)
    requires ctx.arch.layout.internalRoot != "" && RootOutsideCmd(ctx) && HasPrefix(a, InternalPrefix(ctx))
    requires KindOf(ctx, a).kind == App || CheckInternalImport(ctx.arch.structure.requireAlias, KindOf(ctx, a), KindOf(ctx, b)).None?
    ensures ImportRule(ctx, a, b).None?
  {
    hide Classify, CheckInternalImport, InternalPrefix;
    InternalIsCommandIff(ctx, a);
  }

  lemma BridgedIsClean(ctx: Context, f: Finding)
    requires ctx == Bridged()
    ensures !Reported(ctx, f)
  {
    hide KindOf, InternalPrefix, Imports, ImportRule, HasPrefix, ExcludedPackage;
    BridgedImports(ctx, f.pkg, f.imp);
    BridgedDomainKind(ctx, "x");
    BridgedDomainKind(ctx, "y");
    BridgedDirKind(ctx);
    BridgedRoot(ctx);
    assert "m/i/d/" + "x" == "m/i/d/x" && "m/i/d/" + "y" == "m/i/d/y";
    hide Bridged;
    if Imports(ctx, f.pkg, f.imp) {
      AcceptedByKind(ctx, f.pkg, f.imp);
    }
  }

  lemma BridgedRoot(ctx: Context)
    requires ctx == Bridged()
    ensures RootOutsideCmd(ctx)
  {
  }

  /** The chain x -> shared -> app -> y of a clean project leaves domain x for domain y, so the
      composition root in the theorem cannot be dropped. */
  lemma BridgedProject() returns (ctx: Context, p: seq<string>)
    ensures Isolated(ctx) && EscapingChain(ctx, p)
  {
    hide KindOf, InternalPrefix;
    ctx := Bridged();
    p := ["m/i/d/x", "m/i/s", "m/i/a", "m/i/d/y"];
    forall f
      ensures !Reported(ctx, f)
    {
      BridgedIsClean(ctx, f);
    }
    BridgedDomainKind(ctx, "x");
    BridgedDomainKind(ctx, "y");
    BridgedDirKind(ctx);
    assert "m/i/d/" + "x" == "m/i/d/x" && "m/i/d/" + "y" == "m/i/d/y";
    forall i | 0 <= i < 3
      ensures Imports(ctx, p[i], p[i + 1])
    {
      BridgedImports(ctx, p[i], p[i + 1]);
    }
  }

  // A clean project under a `cmd` root.

  function UnderCmdRoot(): Context {
    Context([Package("m/cmd/d/x", {"m/cmd/d/y"}), Package("m/cmd/d/y", {})], "m",
            BridgedArch().(layout := LayoutModel("cmd", "d", "o", "s", "a", "")), [])
  }

  lemma CmdRootDomainKind(ctx: Context, name: string)
    requires ctx == UnderCmdRoot() && '/' !in name && name != ""
    ensures KindOf(ctx, "m/cmd/d/" + name) == Classified(DomainRoot, name, "")
    ensures HasPrefix("m/cmd/d/" + name, InternalPrefix(ctx))
  {
    hide Classify;
    assert InternalPrefix(ctx) == "m/cmd/";
    assert "m/cmd/d/" + name == "m/cmd/" + "d/" + name;
    DomainRootKind(ctx.arch, "m/cmd/", name);
  }

  /** With the internal root `cmd` one domain imports another, no composition root in sight, and
      nothing is reported. */
  lemma CmdRootProject() returns (ctx: Context, p: seq<string>)
    ensures ctx.arch.layout.domainDir != "" && ctx.arch.layout.internalRoot == "cmd" && ctx.arch.structure.requireAlias
    ensures Applies(ctx) && forall f :: !Reported(ctx, f)
    ensures ImportChain(ctx, p) && Beyond(KindOf(ctx, p[0]), KindOf(ctx, p[|p| - 1]))
    ensures forall i :: 0 <= i < |p| ==> KindOf(ctx, p[i]).kind == DomainRoot
  {
    hide KindOf, InternalPrefix, ImportRule;
    ctx := UnderCmdRoot();
    p := ["m/cmd/d/x", "m/cmd/d/y"];
    CmdRootDomainKind(ctx, "x");
    CmdRootDomainKind(ctx, "y");
    assert "m/cmd/d/" + "x" == p[0] && "m/cmd/d/" + "y" == p[1];
    assert ctx.pkgs[0] == Package(p[0], {p[1]}) && ctx.pkgs[1] == Package(p[1], {});
    CmdRootApplies(ctx);
    CmdRootAccepts(ctx, p[0], p[1]);
    forall f
      ensures !Reported(ctx, f)
    {
    }
  }

  lemma CmdRootApplies(ctx: Context)
    requires ctx == UnderCmdRoot() && HasPrefix("m/cmd/d/x", InternalPrefix(ctx))
    ensures Applies(ctx)
  {
    hide InternalPrefix;
    var path := ctx.pkgs[0].path;
    assert "m" + "/" <= path by {
      assert path[..2] == "m" + "/";
    }
  }

  lemma CmdRootAccepts(ctx: Context, a: string, b: string)
    requires ctx == UnderCmdRoot() && HasPrefix(a, InternalPrefix(ctx)) && KindOf(ctx, b).kind == DomainRoot
    ensures ImportRule(ctx, a, b).None?
  {
    hide Classify, CheckInternalImport, InternalPrefix;
    assert !RootOutsideCmd(ctx) by {
      assert "cmd" + "/" == "cmd/";
    }
    InternalIsCommandIff(ctx, a);
  }
}
