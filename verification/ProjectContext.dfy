/** The read-only view a rule sees: loaded packages, architecture, and path exclusion. */
module ProjectContext {
  import opened Architecture
  import opened GoStrings
  import opened Options

  /** A loaded package: its import path and the keys of its import map. */
  datatype Package = Package(path: string, imports: set<string>)

  /** `exclude` holds the patterns as NewContext stores them. */
  datatype Context = Context(pkgs: seq<Package>, moduleName: string, arch: Arch, exclude: seq<string>)

  // Path normalization.

  function Slashes(s: string): (r: string)
    ensures |r| == |s|
  {
    seq(|s|, i requires 0 <= i < |s| => if s[i] == '\\' then '/' else s[i])
  }

  function TrimDots(s: string): string {
    if HasPrefix(s, "./") then TrimDots(s[2..]) else s
  }

  function Normalize(path: string): string {
    TrimSuffix(TrimDots(TrimPrefix(Slashes(path), "/")), "/")
  }

  /** NormalizeMatchPath, with its trimming loop. */
  method NormalizeMatchPath(path: string) returns (r: string)
    ensures r == Normalize(path)
  {
    r := Slashes(path);
    r := TrimPrefix(r, "/");
    ghost var start := r;
    while HasPrefix(r, "./")
      invariant TrimDots(r) == TrimDots(start)
      decreases |r|
    {
      r := TrimPrefix(r, "./");
    }
    assert HasSuffix(r, "...") ==> r[|r| - 3..][2] == '.' == r[|r| - 1];
    assert HasSuffix(r, "/") ==> r[|r| - 1..][0] == '/' == r[|r| - 1];
    if HasSuffix(r, "/") && !HasSuffix(r, "...") {
      r := TrimSuffix(r, "/");
    }
  }

  /** A path in the form every spelling is meant to reduce to. */
  predicate Canonical(p: string) {
    p != "" && p != "." && '\\' !in p && !HasPrefix(p, "/") && !HasPrefix(p, "./") && !HasSuffix(p, "/")
  }

  function Dots(k: nat): string {
    if k == 0 then "" else "./" + Dots(k - 1)
  }

  /** q is p behind an optional "/", any number of "./", before an optional "/", with any of the
      slashes written as backslashes. */
  ghost predicate Spells(q: string, p: string) {
    exists rooted, k, slashed :: SpelledBy(q, p, rooted, k, slashed)
  }

  predicate SpelledBy(q: string, p: string, rooted: bool, k: nat, slashed: bool) {
    Slashes(q) == (if rooted then "/" else "") + Dots(k) + p + (if slashed then "/" else "")
  }

  lemma {:induction false} TrimDotsOf(k: nat, t: string)
    requires !HasPrefix(t, "./")
    ensures TrimDots(Dots(k) + t) == t
  {
    if k == 0 {
      assert Dots(0) + t == t;
    } else {
      TrimDotsOf(k - 1, t);
      assert Dots(k) + t == "./" + (Dots(k - 1) + t);
      assert ("./" + (Dots(k - 1) + t))[2..] == Dots(k - 1) + t;
    }
  }

  lemma {:induction false} TrimDotsInverse(s: string) returns (k: nat)
    ensures s == Dots(k) + TrimDots(s) && !HasPrefix(TrimDots(s), "./")
  {
    if HasPrefix(s, "./") {
      var j := TrimDotsInverse(s[2..]);
      k := j + 1;
      var t := TrimDots(s);
      assert s == "./" + s[2..] && t == TrimDots(s[2..]);
      assert "./" + (Dots(j) + t) == ("./" + Dots(j)) + t;
    } else {
      k := 0;
    }
  }

  lemma NoDotPrefix(p: string, t: string)
    requires Canonical(p) && p <= t && (|t| > |p| ==> t[|p|] == '/')
    ensures !HasPrefix(t, "./")
    ensures !HasPrefix(t, "/")
  {
    assert t[0] == p[0];
    if |p| == 1 {
      assert p == [p[0]];
      assert p[0] != '.';
    } else {
      assert t[1] == p[1];
      assert p[..2] == [p[0], p[1]];
    }
  }

  lemma SpellingNormalizes(q: string, p: string, rooted: bool, k: nat, slashed: bool)
    requires Canonical(p) && SpelledBy(q, p, rooted, k, slashed)
    ensures Normalize(q) == p
  {
    var s := Slashes(q);
    var t := p + if slashed then "/" else "";
    NoDotPrefix(p, t);
    var rest := Dots(k) + t;
    assert s == (if rooted then "/" else "") + rest;
    assert rest[0] == (if k == 0 then t[0] else '.');
    assert !HasPrefix(rest, "/");
    assert TrimPrefix(s, "/") == rest by {
      if rooted {
        assert s[1..] == rest;
      } else {
        assert s == rest;
      }
    }
    TrimDotsOf(k, t);
    assert TrimSuffix(t, "/") == p by {
      if slashed {
        assert t[..|t| - 1] == p && t[|t| - 1..] == "/";
      } else {
        assert t == p;
      }
    }
  }

  lemma Reattach(s: string, p: string)
    ensures s == (if HasPrefix(s, p) then p else "") + TrimPrefix(s, p)
  {
  }

  lemma Detach(s: string, t: string)
    ensures s == TrimSuffix(s, t) + (if HasSuffix(s, t) then t else "")
  {
  }

  lemma NormalizesFromSpelling(q: string, p: string)
    requires Canonical(p) && Normalize(q) == p
    ensures Spells(q, p)
  {
    var s := Slashes(q);
    var unrooted := TrimPrefix(s, "/");
    var k := TrimDotsInverse(unrooted);
    var t := TrimDots(unrooted);
    var rooted, slashed := HasPrefix(s, "/"), HasSuffix(t, "/");
    Reattach(s, "/");
    Detach(t, "/");
    assert p == TrimSuffix(t, "/");
    var lead, trail := if rooted then "/" else "", if slashed then "/" else "";
    hide Normalize, Canonical, TrimDots, TrimPrefix, TrimSuffix, Slashes;
    Regroup(lead, Dots(k), p, trail);
    assert SpelledBy(q, p, rooted, k, slashed);
  }

  lemma Regroup(a: string, b: string, c: string, d: string)
    ensures a + (b + (c + d)) == a + b + c + d
  {
  }

  /** The spellings of a canonical path are exactly the strings that normalize to it. */
  lemma NormalizeIffSpelling(q: string, p: string)
    requires Canonical(p)
    ensures Normalize(q) == p <==> Spells(q, p)
  {
    hide Normalize, SpelledBy, Canonical;
    if rooted, k, slashed :| SpelledBy(q, p, rooted, k, slashed) {
      SpellingNormalizes(q, p, rooted, k, slashed);
    }
    if Normalize(q) == p {
      NormalizesFromSpelling(q, p);
    }
  }

  /** The project root: "./" does not reduce to ".". */
  lemma RootIsNotCanonical()
    ensures Normalize("./") == "" && Normalize(".") == "."
  {
    assert Slashes("./") == "./" && Slashes(".") == ".";
    assert "./"[0] == "."[0] == '.' && "/"[0] == '/';
    assert !HasPrefix("./", "/") && !HasPrefix(".", "/");
    assert "./"[2..] == "" && TrimDots("") == "";
    assert TrimDots("./") == "" && TrimDots(".") == ".";
  }

  lemma SpellsItself(p: string)
    requires '\\' !in p
    ensures Spells(p, p)
  {
    assert Slashes(p) == p;
    assert "" + Dots(0) + p + "" == p;
    assert SpelledBy(p, p, false, 0, false);
  }

  lemma {:induction false} TrimDotsShorter(s: string)
    ensures |TrimDots(s)| <= |s|
    ensures HasPrefix(s, "./") ==> |TrimDots(s)| < |s|
    ensures TrimDots(s) == s || HasPrefix(s, "./")
  {
    if HasPrefix(s, "./") {
      TrimDotsShorter(s[2..]);
    }
  }

  /** A path that normalization leaves alone has none of the things it trims. */
  lemma UnchangedIsTrimmed(p: string)
    requires Normalize(p) == p && p != ""
    ensures !HasPrefix(p, "/") && !HasPrefix(p, "./") && !HasSuffix(p, "/")
  {
    var s := Slashes(p);
    var t := TrimPrefix(s, "/");
    TrimDotsShorter(t);
    assert |s| == |p|;
    assert t == s && TrimDots(t) == t && TrimSuffix(t, "/") == t;
    assert s == p;
  }

  /** Whatever the path, all its spellings normalize to it exactly if it is canonical, is empty, or
      has a backslash and so no spelling at all. */
  lemma AllSpellingsNormalizeIff(p: string)
    ensures (forall q :: Spells(q, p) ==> Normalize(q) == p) <==> Canonical(p) || p == "" || '\\' in p
  {
    hide Normalize, Canonical, Spells;
    if Canonical(p) {
      forall q | Spells(q, p)
        ensures Normalize(q) == p
      {
        NormalizeIffSpelling(q, p);
      }
    } else if p == "" {
      forall q | Spells(q, p)
        ensures Normalize(q) == p
      {
        EmptySpelling(q);
      }
    } else if '\\' in p {
      forall q
        ensures !Spells(q, p)
      {
        if Spells(q, p) {
          SpelledHasNoBackslash(q, p);
        }
      }
    } else if forall q :: Spells(q, p) ==> Normalize(q) == p {
      SpellsItself(p);
      UnchangedIsTrimmed(p);
      if p == "." {
        RootIsNotCanonical();
        RootSpelling();
      }
      TrimmedIsCanonical(p);
    }
  }

  lemma TrimmedIsCanonical(p: string)
    requires p != "" && p != "." && '\\' !in p
    requires !HasPrefix(p, "/") && !HasPrefix(p, "./") && !HasSuffix(p, "/")
    ensures Canonical(p)
  {
  }

  lemma RootSpelling()
    ensures Spells("./", ".")
  {
    assert Slashes("./") == "./" == "" + Dots(0) + "." + "/";
    assert SpelledBy("./", ".", false, 0, true);
  }

  lemma SpelledHasNoBackslash(q: string, p: string)
    requires Spells(q, p)
    ensures '\\' !in p
  {
    var rooted, k, slashed :| SpelledBy(q, p, rooted, k, slashed);
    var front := (if rooted then "/" else "") + Dots(k);
    var all := Slashes(q);
    assert all == front + p + (if slashed then "/" else "");
    forall i | 0 <= i < |p|
      ensures p[i] != '\\'
    {
      assert all[|front| + i] == p[i];
    }
  }

  lemma EmptySpelling(q: string)
    requires Spells(q, "")
    ensures Normalize(q) == ""
  {
    var rooted, k, slashed :| SpelledBy(q, "", rooted, k, slashed);
    var s, tail := Slashes(q), if slashed then "/" else "";
    assert s == (if rooted then "/" else "") + (Dots(k) + tail);
    TrimDotsOf(k, tail);
    assert TrimDots("") == "" && TrimDots(tail) == tail;
    hide TrimDots;
    Unrooted(s, rooted, k, tail);
  }

  /** After the leading slash only dots and the tail are left, or nothing at all. */
  lemma Unrooted(s: string, rooted: bool, k: nat, tail: string)
    requires (tail == "" || tail == "/") && s == (if rooted then "/" else "") + (Dots(k) + tail)
    ensures TrimPrefix(s, "/") == Dots(k) + tail || TrimPrefix(s, "/") == tail || TrimPrefix(s, "/") == ""
  {
    var rest := Dots(k) + tail;
    if rooted {
      assert s[1..] == rest;
    } else if k > 0 {
      assert s == rest && rest[0] == '.';
    } else {
      assert s == rest == tail && (tail == "/" ==> s[1..] == "");
    }
  }

  // Exclusion.

  function TrimSlashes(s: string): string {
    if HasSuffix(s, "/") then TrimSlashes(s[..|s| - 1]) else s
  }

  predicate Recursive(pattern: string) {
    |pattern| > 3 && HasSuffix(pattern, "...")
  }

  predicate MatchExclude(pattern: string, path: string) {
    if Recursive(pattern) then SameOrUnder(path, TrimSlashes(pattern[..|pattern| - 3]))
    else pattern == path
  }

  predicate Excluded(patterns: seq<string>, path: string) {
    exists i :: 0 <= i < |patterns| && MatchExclude(patterns[i], Normalize(path))
  }

  /** Context.IsExcluded. */
  method IsExcluded(ctx: Context, path: string) returns (r: bool)
    ensures r <==> Excluded(ctx.exclude, path)
  {
    var p := NormalizeMatchPath(path);
    for i := 0 to |ctx.exclude|
      invariant forall j :: 0 <= j < i ==> !MatchExclude(ctx.exclude[j], p)
    {
      if MatchExclude(ctx.exclude[i], p) {
        return true;
      }
    }
    return false;
  }

  /** The go.mod a package belongs to, if the loader found one. */
  datatype Module = Module(path: string, dir: string)

  /** The given value, or else the first non-empty one on offer, or else nothing. */
  ghost predicate IsDefault(given: string, offers: seq<string>, r: string) {
    if given != "" then r == given
    else if forall i :: 0 <= i < |offers| ==> offers[i] == "" then r == ""
    else exists i :: 0 <= i < |offers| && r == offers[i] != "" && forall j :: 0 <= j < i ==> offers[j] == ""
  }

  function PathOffers(modules: seq<Option<Module>>): seq<string> {
    seq(|modules|, i requires 0 <= i < |modules| => if modules[i].Some? then modules[i].value.path else "")
  }

  function DirOffers(modules: seq<Option<Module>>): seq<string> {
    seq(|modules|, i requires 0 <= i < |modules| => if modules[i].Some? then modules[i].value.dir else "")
  }

  /** What the loop has found after the first n offers. */
  ghost predicate FoundSoFar(given: string, offers: seq<string>, n: nat, r: string)
    requires n <= |offers|
  {
    IsDefault(given, offers[..n], r)
  }

  lemma OfferStep(given: string, offers: seq<string>, n: nat, r: string)
    requires n < |offers| && FoundSoFar(given, offers, n, r)
    ensures FoundSoFar(given, offers, n + 1, if r == "" then offers[n] else r)
  {
    assert offers[..n + 1] == offers[..n] + [offers[n]];
    DefaultStep(given, offers[..n], offers[n], r);
  }

  lemma DefaultStep(given: string, offers: seq<string>, offer: string, r: string)
    requires IsDefault(given, offers, r)
    ensures IsDefault(given, offers + [offer], if r == "" then offer else r)
  {
    var after := offers + [offer];
    assert after[|offers|] == offer && forall j :: 0 <= j < |offers| ==> after[j] == offers[j];
    if given == "" && r != "" {
      var i :| 0 <= i < |offers| && r == offers[i] != "" && forall j :: 0 <= j < i ==> offers[j] == "";
      assert after[i] == r;
    }
  }

  lemma LaterOffersIgnored(given: string, offers: seq<string>, n: nat, r: string)
    requires n <= |offers| && FoundSoFar(given, offers, n, r) && r != ""
    ensures IsDefault(given, offers, r)
  {
    if given == "" {
      var i :| 0 <= i < n && r == offers[..n][i] != "" && forall j :: 0 <= j < i ==> offers[..n][j] == "";
      assert offers[i] == r;
      assert forall j :: 0 <= j < i ==> offers[j] == offers[..n][j];
    }
  }

  lemma NoOffers(given: string, offers: seq<string>)
    ensures FoundSoFar(given, offers, 0, given)
  {
  }

  /** resolveContextDefaults: module path and root are found independently of each other, although
      the loop stops as soon as it has both. */
  method ResolveContextDefaults(modules: seq<Option<Module>>, moduleName: string, root: string)
    returns (m: string, r: string)
    ensures IsDefault(moduleName, PathOffers(modules), m) && IsDefault(root, DirOffers(modules), r)
  {
    var paths, dirs := PathOffers(modules), DirOffers(modules);
    m, r := moduleName, root;
    hide FoundSoFar, IsDefault;
    if m != "" && r != "" {
      GivenIsDefault(moduleName, paths);
      GivenIsDefault(root, dirs);
      return;
    }
    NoOffers(moduleName, paths);
    NoOffers(root, dirs);
    for n := 0 to |modules|
      invariant FoundSoFar(moduleName, paths, n, m) && FoundSoFar(root, dirs, n, r)
    {
      OfferStep(moduleName, paths, n, m);
      OfferStep(root, dirs, n, r);
      if modules[n].None? {
        continue;
      }
      if m == "" && modules[n].value.path != "" {
        m := modules[n].value.path;
      }
      if r == "" && modules[n].value.dir != "" {
        r := modules[n].value.dir;
      }
      if m != "" && r != "" {
        LaterOffersIgnored(moduleName, paths, n + 1, m);
        LaterOffersIgnored(root, dirs, n + 1, r);
        return;
      }
    }
    AllOffers(moduleName, paths, m);
    AllOffers(root, dirs, r);
  }

  lemma GivenIsDefault(given: string, offers: seq<string>)
    requires given != ""
    ensures IsDefault(given, offers, given)
  {
  }

  lemma AllOffers(given: string, offers: seq<string>, r: string)
    requires FoundSoFar(given, offers, |offers|, r)
    ensures IsDefault(given, offers, r)
  {
    assert offers[..|offers|] == offers;
  }

  /** NewContext: a missing module name comes from the packages, patterns are normalized once, and
      an empty internal root becomes "internal". */
  method NewContext(pkgs: seq<Package>, modules: seq<Option<Module>>, moduleName: string, root: string, arch: Arch,
      exclude: seq<string>) returns (ctx: Context, projectRoot: string)
    ensures ctx.pkgs == pkgs && IsDefault(moduleName, PathOffers(modules), ctx.moduleName)
    ensures IsDefault(root, DirOffers(modules), projectRoot)
    ensures |ctx.exclude| == |exclude| && forall i :: 0 <= i < |exclude| ==> ctx.exclude[i] == Normalize(exclude[i])
    ensures ctx.arch.layers == arch.layers && ctx.arch.structure == arch.structure
    ensures ctx.arch.layout.internalRoot != ""
    ensures arch.layout.internalRoot != "" ==> ctx.arch == arch
    ensures ctx.arch.layout.(internalRoot := "") == arch.layout.(internalRoot := "")
  {
    hide Normalize, IsDefault;
    var m;
    m, projectRoot := ResolveContextDefaults(modules, moduleName, root);
    var norm: seq<string> := [];
    for i := 0 to |exclude|
      invariant |norm| == i && forall j :: 0 <= j < i ==> norm[j] == Normalize(exclude[j])
    {
      var p := NormalizeMatchPath(exclude[i]);
      norm := norm + [p];
    }
    var layout := arch.layout;
    if layout.internalRoot == "" {
      layout := layout.(internalRoot := "internal");
    }
    ctx := Context(pkgs, m, arch.(layout := layout), norm);
  }

  /** A recursive pattern in any spelling, given a path in any spelling, excludes exactly the
      paths whose segments start with the segments of its base: no sibling with a longer name. */
  lemma RecursiveExcludeIsSegmentPrefix(base: string, path: string, pattern: string, spelled: string)
    requires Canonical(base) && Canonical(path)
    requires Spells(pattern, base + "/...") && Spells(spelled, path)
    ensures MatchExclude(Normalize(pattern), Normalize(spelled)) <==> Split(base, '/') <= Split(path, '/')
  {
    hide Normalize, Spells;
    var full := base + "/...";
    NoDotPrefix(base, full);
    assert full[|full| - 1] == '.';
    assert Canonical(full);
    NormalizeIffSpelling(pattern, full);
    NormalizeIffSpelling(spelled, path);
    assert full == (base + "/") + "...";
    assert full[|full| - 3..] == "..." && full[..|full| - 3] == base + "/";
    assert Recursive(full);
    assert (base + "/")[..|base|] == base;
    assert TrimSlashes(base + "/") == TrimSlashes(base) == base;
    SameOrUnderIsSegmentPrefix(path, base);
  }

  /** A pattern that ends in "..." takes everything below what it takes exactly when its normal
      form has something before the dots. */
  lemma TakesDescendantsIff(pattern: string)
    requires HasSuffix(pattern, "...")
    ensures (forall path, below :: MatchExclude(pattern, path) ==> MatchExclude(pattern, path + "/" + below)) <==> |pattern| > 3
  {
    hide MatchExclude, SameOrUnder, TrimSlashes;
    if |pattern| > 3 {
      assert Recursive(pattern);
      forall path, below | MatchExclude(pattern, path)
        ensures MatchExclude(pattern, path + "/" + below)
      {
        RecursiveExcludeClosed(pattern, path, below);
      }
    } else {
      assert pattern == "...";
      DotsMatchThemselves("...");
      DotsMatchThemselves("..." + "/" + "a");
    }
  }

  /** The bare dots are an ordinary pattern for the one path of that name. */
  lemma DotsMatchThemselves(path: string)
    ensures MatchExclude("...", path) <==> path == "..."
  {
    assert !Recursive("...");
  }

  /** So the pattern for the whole project, in any of its spellings, excludes nothing but a path
      named "...". */
  lemma RootPatternExcludesNothing(pattern: string, path: string)
    requires Spells(pattern, "...")
    ensures MatchExclude(Normalize(pattern), path) <==> path == "..."
  {
    hide Normalize, Spells, MatchExclude;
    assert Canonical("...") by {
      assert "..."[0] == "..."[1] == "..."[2] == '.' && "./"[1] == '/' && "/"[0] == '/';
    }
    NormalizeIffSpelling(pattern, "...");
    DotsMatchThemselves(path);
  }

  lemma RootPatternSpelled()
    ensures Spells("./...", "...") && Spells("/./...", "...")
  {
    assert Slashes("./...") == "./..." == "" + Dots(1) + "..." + "" by {
      assert Dots(1) == "./" + Dots(0);
    }
    assert SpelledBy("./...", "...", false, 1, false);
    assert Slashes("/./...") == "/./..." == "/" + Dots(1) + "..." + "";
    assert SpelledBy("/./...", "...", true, 1, false);
  }

  /** Any other pattern excludes one path only. */
  lemma PlainExcludeIsEquality(base: string, path: string, pattern: string, spelled: string)
    requires Canonical(base) && Canonical(path) && !Recursive(base)
    requires Spells(pattern, base) && Spells(spelled, path)
    ensures MatchExclude(Normalize(pattern), Normalize(spelled)) <==> base == path
  {
    NormalizeIffSpelling(pattern, base);
    NormalizeIffSpelling(spelled, path);
  }

  /** A recursive exclude takes everything below what it takes, for every pattern and path. */
  lemma RecursiveExcludeClosed(pattern: string, path: string, below: string)
    requires Recursive(pattern) && MatchExclude(pattern, path)
    ensures MatchExclude(pattern, path + "/" + below)
  {
    var base := TrimSlashes(pattern[..|pattern| - 3]);
    SameOrUnderIsSegmentPrefix(path, base);
    SameOrUnderIsSegmentPrefix(path + "/" + below, base);
    assert path + "/" + below == path + ['/'] + below;
    SplitConcat(path, below, '/');
  }

  /** analysisutil.ProjectRelativePackagePath. */
  function RelativePath(pkgPath: string, moduleName: string): string {
    if pkgPath == "" || moduleName == "" then ""
    else if pkgPath == moduleName then "."
    else if HasPrefix(pkgPath, moduleName + "/") then pkgPath[|moduleName| + 1..]
    else ""
  }

  /** isExcludedPackage. */
  predicate ExcludedPackage(ctx: Context, pkgPath: string) {
    Excluded(ctx.exclude, RelativePath(pkgPath, ctx.moduleName))
  }

  function InternalPrefix(ctx: Context): string {
    ctx.moduleName + "/" + ctx.arch.layout.internalRoot + "/"
  }
}
