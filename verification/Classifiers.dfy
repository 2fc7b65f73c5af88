/** How import paths are sorted into kinds, domains and sublayers, by three rule packages that
    each do it their own way. */
module Classifiers {
  import opened Architecture
  import opened GoStrings
  import opened Options

  datatype Kind = Domain | Orchestration | Shared | DomainRoot | Cmd | Unclassified | App | Transport

  datatype Classified = Classified(kind: Kind, domain: string, sublayer: string)

  predicate IsDomainKind(k: Kind) {
    k == Domain || k == DomainRoot
  }

  function Only(k: Kind): Classified {
    Classified(k, "", "")
  }

  // rules/dependency

  predicate IsUnderInternalDir(pkgPath: string, prefix: string, dir: string) {
    dir != "" && SameOrUnder(TrimPrefix(pkgPath, prefix), dir)
  }

  /** Directory classification compares whole segments: a sibling with a longer name is outside. */
  lemma UnderDirIsSegmentPrefix(prefix: string, rel: string, dir: string)
    ensures IsUnderInternalDir(prefix + rel, prefix, dir) <==> dir != "" && Split(dir, '/') <= Split(rel, '/')
  {
    assert (prefix + rel)[|prefix|..] == rel;
    SameOrUnderIsSegmentPrefix(rel, dir);
  }

  predicate IsTransport(rel: string, serverDir: string) {
    serverDir != "" && HasPrefix(rel, serverDir + "/") && TrimPrefix(rel, serverDir + "/") != ""
  }

  predicate HasNested(sublayers: seq<string>, root: string) {
    exists i :: 0 <= i < |sublayers| && HasPrefix(sublayers[i], root + "/")
  }

  function IdentifyDomain(arch: Arch, pkgPath: string, prefix: string): string {
    var rel := TrimPrefix(pkgPath, prefix);
    var dir := arch.layout.domainDir + "/";
    if HasPrefix(rel, dir) then SplitN(TrimPrefix(rel, dir), '/', 2)[0] else ""
  }

  function IdentifySublayer(arch: Arch, pkgPath: string, prefix: string, domain: string): string {
    var domainPrefix := prefix + arch.layout.domainDir + "/" + domain + "/";
    if !HasPrefix(pkgPath, domainPrefix) then ""
    else
      var parts := SplitN(TrimPrefix(pkgPath, domainPrefix), '/', 3);
      if |parts| >= 2 && parts[0] + "/" + parts[1] in arch.layers.sublayers then parts[0] + "/" + parts[1]
      else if |parts| >= 2 && HasNested(arch.layers.sublayers, parts[0]) then parts[0] + "/" + parts[1]
      else parts[0]
  }

  function Classify(arch: Arch, pkgPath: string, prefix: string): Classified {
    var layout := arch.layout;
    var rel := TrimPrefix(pkgPath, prefix);
    if !HasPrefix(pkgPath, prefix) then Only(Unclassified)
    else if IsUnderInternalDir(pkgPath, prefix, layout.sharedDir) then Only(Shared)
    else if IsUnderInternalDir(pkgPath, prefix, layout.appDir) then Only(App)
    else if IsTransport(rel, layout.serverDir) then Only(Transport)
    else if IsUnderInternalDir(pkgPath, prefix, layout.orchestrationDir) then Only(Orchestration)
    else if layout.domainDir != "" then
      var domain := IdentifyDomain(arch, pkgPath, prefix);
      if domain == "" then Only(Unclassified)
      else
        var sub := IdentifySublayer(arch, pkgPath, prefix, domain);
        if sub == "" then Classified(DomainRoot, domain, "") else Classified(Domain, domain, sub)
    else
      var top := SplitN(rel, '/', 2)[0];
      if top == "" then Only(Unclassified)
      else if top in arch.layers.sublayers then Classified(Domain, "", top)
      else Only(Unclassified)
  }

  // rules/tx

  function NestedLayer(layers: seq<string>, rel: string): string {
    var parts := SplitN(rel, '/', 3);
    if |parts| >= 2 && parts[0] + "/" + parts[1] in layers then parts[0] + "/" + parts[1]
    else if |parts| >= 2 && HasNested(layers, parts[0]) then ""
    else if parts[0] in layers then parts[0]
    else ""
  }

  function PackageLayer(arch: Arch, pkgPath: string, prefix: string): string {
    var layers := arch.layers.sublayers;
    if arch.layout.domainDir == "" then
      var top := SplitN(TrimPrefix(pkgPath, prefix), '/', 2)[0];
      if top in layers then top else ""
    else
      var domainPrefix := prefix + arch.layout.domainDir + "/";
      if !HasPrefix(pkgPath, domainPrefix) then ""
      else
        var parts := SplitN(TrimPrefix(pkgPath, domainPrefix), '/', 2);
        if |parts| < 2 then "" else NestedLayer(layers, parts[1])
  }

  // rules/structural

  /** best is the longest declared sublayer the path is in or below, "" if there is none. */
  ghost predicate IsLongestMatch(sublayers: seq<string>, rel: string, best: string) {
    && (best != "" ==> best in sublayers && SameOrUnder(rel, best))
    && (forall s :: s in sublayers && SameOrUnder(rel, s) ==> |s| <= |best|)
  }

  /** knownSublayerForRel. */
  method KnownSublayerForRel(sublayers: seq<string>, rel: string) returns (best: string, ok: bool)
    ensures IsLongestMatch(sublayers, rel, best) && ok == (best != "")
  {
    hide SameOrUnder;
    best := "";
    for i := 0 to |sublayers|
      invariant IsLongestMatch(sublayers[..i], rel, best)
    {
      assert sublayers[..i + 1] == sublayers[..i] + [sublayers[i]];
      if SameOrUnder(rel, sublayers[i]) {
        if |sublayers[i]| > |best| {
          best := sublayers[i];
        }
      }
    }
    assert sublayers[..|sublayers|] == sublayers;
    ok := best != "";
  }

  /** The part of the path below `<module>/<root>/<domainDir>/<domain>/`, if there is any. */
  function DomainRelative(moduleName: string, arch: Arch, pkgPath: string): Option<string> {
    var m := TrimSuffix(moduleName, "/");
    var layout := arch.layout;
    var prefix := m + "/" + layout.internalRoot + "/";
    var rel := TrimPrefix(pkgPath, prefix);
    var dir := layout.domainDir + "/";
    if m == "" || layout.internalRoot == "" || layout.domainDir == "" then None
    else if !HasPrefix(pkgPath, prefix) || !HasPrefix(rel, dir) then None
    else
      var parts := SplitN(TrimPrefix(rel, dir), '/', 2);
      if |parts| < 2 || parts[1] == "" then None else Some(parts[1])
  }

  /** domainSublayerForPackage. */
  method DomainSublayerForPackage(moduleName: string, arch: Arch, pkgPath: string) returns (sublayer: string, ok: bool)
    ensures ok == (sublayer != "")
    ensures match DomainRelative(moduleName, arch, pkgPath)
            case None => sublayer == ""
            case Some(rel) => IsLongestMatch(arch.layers.sublayers, rel, sublayer)
  {
    match DomainRelative(moduleName, arch, pkgPath)
    case None =>
      return "", false;
    case Some(rel) =>
      sublayer, ok := KnownSublayerForRel(arch.layers.sublayers, rel);
  }

  // How the three relate.

  /** The package `rel` inside domain `d`. */
  predicate BelowDomain(arch: Arch, prefix: string, pkgPath: string, d: string, rel: string) {
    arch.layout.domainDir != "" && '/' !in d && pkgPath == prefix + arch.layout.domainDir + "/" + d + "/" + rel
  }

  lemma {:induction false} SplitNNoSep(s: string, n: nat)
    requires n >= 1 && '/' !in s
    ensures SplitN(s, '/', n) == [s]
  {
    if n > 1 && s != "" {
      SplitNNoSep(s[1..], n);
      assert s == [s[0]] + s[1..];
    }
  }

  lemma {:induction false} SplitNHead(d: string, rest: string, n: nat)
    requires n >= 2 && '/' !in d
    ensures SplitN(d + "/" + rest, '/', n) == [d] + SplitN(rest, '/', n - 1)
  {
    var s := d + "/" + rest;
    if d == "" {
      assert s == "/" + rest && s[1..] == rest;
    } else {
      SplitNHead(d[1..], rest, n);
      assert s[0] == d[0] && s[1..] == d[1..] + "/" + rest;
      assert d == [d[0]] + d[1..];
      assert ([d[1..]] + SplitN(rest, '/', n - 1))[1..] == SplitN(rest, '/', n - 1);
    }
  }

  /** A path is one segment, or a first segment and a rest. */
  lemma {:induction false} FirstSegment(s: string) returns (a: string, more: bool, rest: string)
    ensures '/' !in a && s == a + (if more then "/" + rest else "")
  {
    if s == "" {
      a, more, rest := "", false, "";
    } else if s[0] == '/' {
      a, more, rest := "", true, s[1..];
    } else {
      a, more, rest := FirstSegment(s[1..]);
      a := [s[0]] + a;
      assert s == [s[0]] + s[1..];
    }
  }

  /** What the three classifiers see of a package below a domain. */
  lemma BelowDomainParts(arch: Arch, prefix: string, pkgPath: string, d: string, rel: string)
    requires BelowDomain(arch, prefix, pkgPath, d, rel)
    ensures PackageLayer(arch, pkgPath, prefix) == NestedLayer(arch.layers.sublayers, rel)
    ensures TrimPrefix(pkgPath, prefix + arch.layout.domainDir + "/" + d + "/") == rel
    ensures HasPrefix(pkgPath, prefix + arch.layout.domainDir + "/" + d + "/")
    ensures IdentifyDomain(arch, pkgPath, prefix) == d
  {
    var dir := prefix + arch.layout.domainDir + "/";
    var rest := d + "/" + rel;
    assert pkgPath == dir + rest == (dir + d + "/") + rel;
    assert pkgPath == prefix + ((arch.layout.domainDir + "/") + rest);
    assert pkgPath[|prefix|..] == (arch.layout.domainDir + "/") + rest;
    assert ((arch.layout.domainDir + "/") + rest)[|arch.layout.domainDir| + 1..] == rest;
    assert TrimPrefix(pkgPath, dir) == rest;
    SplitNHead(d, rel, 2);
  }

  lemma RelativeParts(moduleName: string, arch: Arch, pkgPath: string, d: string, rel: string)
    requires moduleName != "" && !HasSuffix(moduleName, "/") && arch.layout.internalRoot != ""
    requires BelowDomain(arch, moduleName + "/" + arch.layout.internalRoot + "/", pkgPath, d, rel)
    ensures DomainRelative(moduleName, arch, pkgPath) == if rel == "" then None else Some(rel)
  {
    var prefix := moduleName + "/" + arch.layout.internalRoot + "/";
    var rest := d + "/" + rel;
    assert pkgPath == prefix + ((arch.layout.domainDir + "/") + rest);
    assert pkgPath[|prefix|..] == (arch.layout.domainDir + "/") + rest;
    assert ((arch.layout.domainDir + "/") + rest)[|arch.layout.domainDir| + 1..] == rest;
    SplitNHead(d, rel, 2);
  }

  /** The transaction rule sees a layer exactly when the dependency rules see a declared one, and
      then the same one. */
  lemma LayerIffDeclaredSublayer(arch: Arch, prefix: string, pkgPath: string, d: string, rel: string)
    requires BelowDomain(arch, prefix, pkgPath, d, rel) && "" !in arch.layers.sublayers
    ensures var sub := IdentifySublayer(arch, pkgPath, prefix, d);
            PackageLayer(arch, pkgPath, prefix) == if sub in arch.layers.sublayers then sub else ""
  {
    BelowDomainParts(arch, prefix, pkgPath, d, rel);
  }

  /** SplitN yields the first segments of Split. */
  lemma {:induction false} SplitNPrefix(s: string, n: nat)
    requires n >= 1
    ensures |SplitN(s, '/', n)| == if |Split(s, '/')| < n then |Split(s, '/')| else n
    ensures forall i :: 0 <= i < n - 1 && i < |Split(s, '/')| ==> SplitN(s, '/', n)[i] == Split(s, '/')[i]
  {
    if n > 1 && s != "" {
      SplitNPrefix(s[1..], if s[0] == '/' then n - 1 else n);
    }
  }

  /** The path is in or below a declared layer of three or more segments. */
  predicate InDeepLayer(layers: seq<string>, rel: string) {
    exists i :: 0 <= i < |layers| && SameOrUnder(rel, layers[i]) && |Split(layers[i], '/')| >= 3
  }

  /** The path is below a declared layer that also has declared nested layers, but in none of
      them. */
  predicate Shadowed(layers: seq<string>, rel: string) {
    var p := Split(rel, '/');
    |p| >= 2 && p[0] in layers && HasNested(layers, p[0]) && p[0] + "/" + p[1] !in layers
  }

  /** A declared layer the path is in or below is its first segment or its first two. */
  lemma MatchIsLeadingSegments(rel: string, s: string)
    requires SameOrUnder(rel, s) && |Split(s, '/')| <= 2
    ensures s == Split(rel, '/')[0] || (|Split(rel, '/')| >= 2 && s == Split(rel, '/')[0] + "/" + Split(rel, '/')[1])
  {
    var parts := Split(s, '/');
    SameOrUnderIsSegmentPrefix(rel, s);
    JoinSplit(s, '/');
    if |parts| == 1 {
      assert parts == [parts[0]];
    } else {
      assert parts[1..] == [parts[1]];
      assert Join(parts, '/') == parts[0] + ['/'] + parts[1];
    }
  }

  lemma LeadingSegmentsMatch(rel: string)
    ensures SameOrUnder(rel, Split(rel, '/')[0])
    ensures |Split(rel, '/')| >= 2 ==> SameOrUnder(rel, Split(rel, '/')[0] + "/" + Split(rel, '/')[1])
  {
    var p := Split(rel, '/');
    JoinSplit(rel, '/');
    if |p| >= 2 {
      JoinAppend(p[..1], p[1..], '/');
      assert p == p[..1] + p[1..];
      if |p| == 2 {
        assert rel == p[0] + "/" + p[1];
      } else {
        JoinAppend(p[1..2], p[2..], '/');
        assert p[1..] == p[1..2] + p[2..];
        assert rel == p[0] + "/" + (p[1] + "/" + Join(p[2..], '/'));
        assert rel == (p[0] + "/" + p[1]) + "/" + Join(p[2..], '/');
      }
      assert HasPrefix(rel, p[0] + "/");
    }
  }

  /** A declared layer of at most two segments is a match of at most that length. */
  lemma ShortMatch(layers: seq<string>, rel: string, s: string)
    requires s in layers && SameOrUnder(rel, s) && !InDeepLayer(layers, rel)
    ensures s == Split(rel, '/')[0] || (|Split(rel, '/')| >= 2 && s == Split(rel, '/')[0] + "/" + Split(rel, '/')[1])
  {
    MatchIsLeadingSegments(rel, s);
  }

  lemma SegmentCount(a: string, b: string)
    requires '/' !in a && '/' !in b
    ensures |Split(a, '/')| == 1 && |Split(a + "/" + b, '/')| == 2
  {
    NoSeparator(a);
    NoSeparator(b);
    assert a + "/" + b == a + ['/'] + b;
    SplitConcat(a, b, '/');
  }

  lemma {:induction false} NoSeparator(s: string)
    requires '/' !in s
    ensures Split(s, '/') == [s]
  {
    if s != "" {
      NoSeparator(s[1..]);
      assert s == [s[0]] + s[1..];
    }
  }

  lemma {:induction false} PartsHaveNoSeparator(s: string)
    ensures forall i :: 0 <= i < |Split(s, '/')| ==> '/' !in Split(s, '/')[i]
  {
    if s != "" {
      PartsHaveNoSeparator(s[1..]);
    }
  }

  /** What nested layers are found has one or two segments. */
  lemma NestedLayerIsShort(layers: seq<string>, rel: string)
    ensures |Split(NestedLayer(layers, rel), '/')| <= 2
  {
    hide HasNested, Split;
    var p := Split(rel, '/');
    SplitNPrefix(rel, 3);
    PartsHaveNoSeparator(rel);
    NoSeparator("");
    SegmentCount(p[0], if |p| >= 2 then p[1] else "");
  }

  /** The longest match is at least as deep as any other. */
  lemma DeepMatchWins(layers: seq<string>, rel: string, best: string)
    requires IsLongestMatch(layers, rel, best) && InDeepLayer(layers, rel)
    ensures |Split(best, '/')| >= 3
  {
    var i :| 0 <= i < |layers| && SameOrUnder(rel, layers[i]) && |Split(layers[i], '/')| >= 3;
    var deep := layers[i];
    assert deep in layers && |deep| <= |best|;
    if best != "" {
      SameOrUnderIsSegmentPrefix(rel, deep);
      SameOrUnderIsSegmentPrefix(rel, best);
      if |Split(best, '/')| < 3 {
        assert Split(best, '/') <= Split(deep, '/');
        SameOrUnderIsSegmentPrefix(deep, best);
      }
    }
  }

  /** For every vocabulary, the longest match names the transaction rule's layer except when the
      path is shadowed or in a layer of three or more segments. */
  lemma LongestMatchAgreesIff(layers: seq<string>, rel: string, best: string)
    requires "" !in layers && IsLongestMatch(layers, rel, best)
    ensures NestedLayer(layers, rel) == best <==> !Shadowed(layers, rel) && !InDeepLayer(layers, rel)
    ensures Shadowed(layers, rel) ==> NestedLayer(layers, rel) == ""
    ensures Shadowed(layers, rel) && !InDeepLayer(layers, rel) ==> best == Split(rel, '/')[0]
  {
    hide SameOrUnder, HasNested, Split, SplitN, HasPrefix, InDeepLayer;
    var p := Split(rel, '/');
    SplitNPrefix(rel, 3);
    LeadingSegmentsMatch(rel);
    if InDeepLayer(layers, rel) {
      DeepMatchWins(layers, rel, best);
      NestedLayerIsShort(layers, rel);
    } else {
      if best != "" {
        ShortMatch(layers, rel, best);
      }
      if |p| >= 2 {
        assert |p[0]| < |p[0] + "/" + p[1]|;
      }
    }
  }

  /** The smallest instances with a deep layer: a package in the only layer there is. */
  lemma DeepLayerDisagrees(layer: string, best: string)
    requires |Split(layer, '/')| >= 3 && IsLongestMatch([layer], layer, best)
    ensures NestedLayer([layer], layer) != best == layer
  {
    hide NestedLayer, Shadowed;
    assert [layer][0] == layer && layer in [layer] && SameOrUnder(layer, [layer][0]);
    NoSeparator("");
    LongestMatchAgreesIff([layer], layer, best);
  }

  /** The same comparison for a whole import path, with the structural rule's method result. */
  lemma PackageLayerAgreesIff(moduleName: string, arch: Arch, pkgPath: string, d: string, rel: string, sublayer: string)
    requires moduleName != "" && !HasSuffix(moduleName, "/") && arch.layout.internalRoot != ""
    requires BelowDomain(arch, moduleName + "/" + arch.layout.internalRoot + "/", pkgPath, d, rel)
    requires "" !in arch.layers.sublayers
    requires match DomainRelative(moduleName, arch, pkgPath)
             case None => sublayer == ""
             case Some(r) => IsLongestMatch(arch.layers.sublayers, r, sublayer)
    ensures PackageLayer(arch, pkgPath, moduleName + "/" + arch.layout.internalRoot + "/") == sublayer
       <==> !Shadowed(arch.layers.sublayers, rel) && !InDeepLayer(arch.layers.sublayers, rel)
  {
    BelowDomainParts(arch, moduleName + "/" + arch.layout.internalRoot + "/", pkgPath, d, rel);
    RelativeParts(moduleName, arch, pkgPath, d, rel);
    if rel == "" {
      NothingBelow(arch.layers.sublayers);
    } else {
      LongestMatchAgreesIff(arch.layers.sublayers, rel, sublayer);
    }
  }

  lemma NothingBelow(layers: seq<string>)
    requires "" !in layers
    ensures NestedLayer(layers, "") == "" && !Shadowed(layers, "") && !InDeepLayer(layers, "")
  {
    forall i | 0 <= i < |layers|
      ensures !SameOrUnder("", layers[i])
    {
      assert layers[i] in layers;
    }
  }
}
