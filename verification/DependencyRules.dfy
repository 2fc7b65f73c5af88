/** What the dependency rules share: violation IDs, the guards before a rule runs, and import
    chains. */
module DependencyRules {
  import opened Classifiers
  import opened GoStrings
  import opened ProjectContext

  datatype Rule =
    | CrossDomain
    | DomainImportsComposition
    | CmdDeepImport
    | OrchestrationDeepImport
    | PkgImportsDomain
    | PkgImportsOrchestration
    | DomainImportsOrchestration
    | StrayImportsOrchestration
    | StrayImportsDomain
    | TransportImportsDomain
    | TransportImportsOrchestration
    | TransportImportsUnclassified
    | InvalidImportDirection
    | InnerImportsPkg
    | UnknownSublayer
    | MetaNoMatchingPackages
    | MetaLayoutNotSupported
    | MetaRuleDisabled

  predicate IsMeta(r: Rule) {
    r.MetaNoMatchingPackages? || r.MetaLayoutNotSupported? || r.MetaRuleDisabled?
  }

  /** A violation, reduced to its ID and the import it is about; `imp` is "" when it is about a
      package, and both are "" when it is about the configuration. */
  datatype Finding = Finding(rule: Rule, pkg: string, imp: string)

  /** No `dependency.*` violation; `meta.*` notices may be present. */
  predicate Clean(vs: seq<Finding>) {
    forall i :: 0 <= i < |vs| ==> IsMeta(vs[i].rule)
  }

  predicate ModuleMatches(ctx: Context) {
    && ctx.moduleName != ""
    && exists i :: 0 <= i < |ctx.pkgs| && SameOrUnder(ctx.pkgs[i].path, ctx.moduleName)
  }

  predicate HasInternal(ctx: Context) {
    exists i :: 0 <= i < |ctx.pkgs| && HasPrefix(ctx.pkgs[i].path, InternalPrefix(ctx))
  }

  ghost predicate Imports(ctx: Context, a: string, b: string) {
    exists i :: 0 <= i < |ctx.pkgs| && ctx.pkgs[i].path == a && b in ctx.pkgs[i].imports
  }

  ghost predicate DistinctPackages(ctx: Context) {
    forall i, j :: 0 <= i < j < |ctx.pkgs| ==> ctx.pkgs[i].path != ctx.pkgs[j].path
  }

  predicate NoRepeats(vs: seq<Finding>) {
    forall i, j :: 0 <= i < j < |vs| ==> vs[i] != vs[j]
  }

  lemma ExcludedMeaning(ctx: Context, pkgPath: string)
    ensures ExcludedPackage(ctx, pkgPath) <==> Excluded(ctx.exclude, RelativePath(pkgPath, ctx.moduleName))
  {
  }

  lemma ConcatNoRepeats(a: seq<Finding>, b: seq<Finding>)
    requires NoRepeats(a) && NoRepeats(b) && forall f :: !(f in a && f in b)
    ensures NoRepeats(a + b)
  {
    forall i, j | 0 <= i < j < |a + b|
      ensures (a + b)[i] != (a + b)[j]
    {
      if i < |a| <= j {
        assert a[i] in a && b[j - |a|] in b;
      }
    }
  }

  function KindOf(ctx: Context, pkgPath: string): Classified {
    Classify(ctx.arch, pkgPath, InternalPrefix(ctx))
  }

  /** A chain of imports between internal packages; every importer is loaded and not excluded. */
  ghost predicate ImportChain(ctx: Context, p: seq<string>) {
    && |p| >= 2
    && (forall i :: 0 <= i < |p| ==> HasPrefix(p[i], InternalPrefix(ctx)))
    && (forall i :: 0 <= i < |p| - 1 ==> Imports(ctx, p[i], p[i + 1]) && !ExcludedPackage(ctx, p[i]))
  }
}
