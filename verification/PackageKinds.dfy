/** Where a package is decides its kind: every case of the classification, by the form of the path.
    Any path has one of these forms, since it is a first segment with or without a rest. */
module PackageKinds {
  import opened Architecture
  import opened Classifiers
  import opened GoStrings
  import opened Options

  predicate Begins(s: string, p: string) {
    |p| <= |s| && s[..|p|] == p
  }

  /** The directory itself, or something behind it and a slash. */
  predicate InDir(rel: string, dir: string) {
    dir != "" && (rel == dir || Begins(rel, dir + "/"))
  }

  /** Something behind the directory and a slash, if only another slash. */
  predicate BelowDir(rel: string, dir: string) {
    dir != "" && Begins(rel, dir + "/") && |rel| > |dir| + 1
  }

  /** One path segment. */
  predicate Segment(s: string) {
    forall i :: 0 <= i < |s| ==> s[i] != '/'
  }

  /** What can stand behind a segment. */
  predicate Tail(t: string) {
    t == "" || t[0] == '/'
  }

  /** In none of the four directories that are no domains. */
  predicate Elsewhere(layout: LayoutModel, rel: string) {
    !InDir(rel, layout.sharedDir) && !InDir(rel, layout.appDir) && !BelowDir(rel, layout.serverDir) && !InDir(rel, layout.orchestrationDir)
  }

  lemma InDirIff(prefix: string, rel: string, dir: string)
    ensures IsUnderInternalDir(prefix + rel, prefix, dir) <==> InDir(rel, dir)
    ensures IsTransport(rel, dir) <==> BelowDir(rel, dir)
  {
    assert (prefix + rel)[|prefix|..] == rel;
  }

  /** Outside the internal tree nothing has a kind. */
  lemma OutsideInternal(arch: Arch, pkgPath: string, prefix: string)
    requires !Begins(pkgPath, prefix)
    ensures Classify(arch, pkgPath, prefix) == Classified(Unclassified, "", "")
  {
  }

  /** The four directories, in the order they are looked at. */
  lemma DirectoryKinds(arch: Arch, prefix: string, rel: string)
    ensures var c := Classify(arch, prefix + rel, prefix);
            var layout := arch.layout;
            && (c == Classified(Shared, "", "") <==> InDir(rel, layout.sharedDir))
            && (c == Classified(App, "", "") <==> !InDir(rel, layout.sharedDir) && InDir(rel, layout.appDir))
            && (c == Classified(Transport, "", "") <==>
                  !InDir(rel, layout.sharedDir) && !InDir(rel, layout.appDir) && BelowDir(rel, layout.serverDir))
            && (c == Classified(Orchestration, "", "") <==>
                  && !InDir(rel, layout.sharedDir) && !InDir(rel, layout.appDir) && !BelowDir(rel, layout.serverDir)
                  && InDir(rel, layout.orchestrationDir))
            && (c.kind == Domain || c.kind == DomainRoot || c.kind == Unclassified <==> Elsewhere(layout, rel))
  {
    var layout := arch.layout;
    InDirIff(prefix, rel, layout.sharedDir);
    InDirIff(prefix, rel, layout.appDir);
    InDirIff(prefix, rel, layout.serverDir);
    InDirIff(prefix, rel, layout.orchestrationDir);
    Behind(prefix, rel);
    hide IsUnderInternalDir, IsTransport, InDir, BelowDir, IdentifyDomain, IdentifySublayer;
  }

  lemma Behind(a: string, b: string)
    ensures HasPrefix(a + b, a) && TrimPrefix(a + b, a) == b
  {
    assert (a + b)[|a|..] == b;
  }

  /** Elsewhere the domain directory decides. */
  lemma ElsewhereKinds(arch: Arch, prefix: string, rel: string)
    requires Elsewhere(arch.layout, rel) && arch.layout.domainDir != ""
    ensures var domain := IdentifyDomain(arch, prefix + rel, prefix);
            Classify(arch, prefix + rel, prefix) ==
            if domain == "" then Classified(Unclassified, "", "")
            else
              var sub := IdentifySublayer(arch, prefix + rel, prefix, domain);
              if sub == "" then Classified(DomainRoot, domain, "") else Classified(Domain, domain, sub)
  {
    var layout := arch.layout;
    InDirIff(prefix, rel, layout.sharedDir);
    InDirIff(prefix, rel, layout.appDir);
    InDirIff(prefix, rel, layout.serverDir);
    InDirIff(prefix, rel, layout.orchestrationDir);
    Behind(prefix, rel);
    hide IsUnderInternalDir, IsTransport, InDir, BelowDir, IdentifyDomain, IdentifySublayer;
  }

  /** Not below the domain directory. */
  lemma OutsideDomains(arch: Arch, prefix: string, rel: string)
    requires Elsewhere(arch.layout, rel) && arch.layout.domainDir != "" && !Begins(rel, arch.layout.domainDir + "/")
    ensures Classify(arch, prefix + rel, prefix) == Classified(Unclassified, "", "")
  {
    ElsewhereKinds(arch, prefix, rel);
    Behind(prefix, rel);
    hide Classify, Elsewhere;
  }

  lemma DomainName(arch: Arch, prefix: string, d: string, t: string)
    requires Segment(d) && Tail(t)
    ensures IdentifyDomain(arch, prefix + (arch.layout.domainDir + "/" + (d + t)), prefix) == d
  {
    var rest := d + t;
    Behind(prefix, arch.layout.domainDir + "/" + rest);
    Behind(arch.layout.domainDir + "/", rest);
    FirstOf(d, t, 2);
    hide SplitN;
  }

  /** SplitN starts with the first segment. */
  lemma FirstOf(d: string, t: string, n: nat)
    requires Segment(d) && Tail(t) && n >= 2
    ensures SplitN(d + t, '/', n) == if t == "" then [d] else [d] + SplitN(t[1..], '/', n - 1)
  {
    if t == "" {
      assert d + t == d;
      SplitNNoSep(d, n);
    } else {
      assert d + t == d + "/" + t[1..];
      SplitNHead(d, t[1..], n);
    }
  }

  /** The domain's own package. */
  lemma DomainRootPlace(arch: Arch, prefix: string, d: string)
    requires Segment(d) && arch.layout.domainDir != "" && Elsewhere(arch.layout, arch.layout.domainDir + "/" + d)
    ensures Classify(arch, prefix + (arch.layout.domainDir + "/" + d), prefix)
         == if d == "" then Classified(Unclassified, "", "") else Classified(DomainRoot, d, "")
  {
    var rel := arch.layout.domainDir + "/" + d;
    assert d + "" == d;
    ElsewhereKinds(arch, prefix, rel);
    DomainName(arch, prefix, d, "");
    hide Classify, Elsewhere, IdentifyDomain;
    assert |prefix + rel| < |prefix + arch.layout.domainDir + "/" + d + "/"|;
  }

  /** What is declared below a segment. */
  predicate NestedBelow(sublayers: seq<string>, a: string) {
    exists i :: 0 <= i < |sublayers| && Begins(sublayers[i], a + "/")
  }

  lemma NestedIff(sublayers: seq<string>, a: string)
    ensures HasNested(sublayers, a) <==> NestedBelow(sublayers, a)
    ensures forall b :: a + "/" + b in sublayers ==> HasNested(sublayers, a)
  {
    forall b | a + "/" + b in sublayers
      ensures HasNested(sublayers, a)
    {
      var i :| 0 <= i < |sublayers| && sublayers[i] == a + "/" + b;
      assert HasPrefix(sublayers[i], a + "/");
    }
  }

  lemma SublayerOf(arch: Arch, prefix: string, d: string, below: string)
    ensures var parts := SplitN(below, '/', 3);
            IdentifySublayer(arch, prefix + (arch.layout.domainDir + "/" + (d + ("/" + below))), prefix, d) ==
            if |parts| >= 2 && NestedBelow(arch.layers.sublayers, parts[0]) then parts[0] + "/" + parts[1] else parts[0]
  {
    var path := prefix + (arch.layout.domainDir + "/" + (d + ("/" + below)));
    var front := prefix + arch.layout.domainDir + "/" + d + "/";
    assert path == front + below;
    Behind(front, below);
    NestedIff(arch.layers.sublayers, SplitN(below, '/', 3)[0]);
    hide SplitN, HasNested, NestedBelow;
  }

  /** A package one segment below its domain. */
  lemma OneBelowDomain(arch: Arch, prefix: string, d: string, a: string)
    requires Segment(d) && Segment(a) && arch.layout.domainDir != ""
    requires Elsewhere(arch.layout, arch.layout.domainDir + "/" + (d + ("/" + a)))
    ensures Classify(arch, prefix + (arch.layout.domainDir + "/" + (d + ("/" + a))), prefix)
         == if d == "" then Classified(Unclassified, "", "")
            else if a == "" then Classified(DomainRoot, d, "")
            else Classified(Domain, d, a)
  {
    var rel := arch.layout.domainDir + "/" + (d + ("/" + a));
    ElsewhereKinds(arch, prefix, rel);
    DomainName(arch, prefix, d, "/" + a);
    SublayerOf(arch, prefix, d, a);
    SplitNNoSep(a, 3);
    hide Classify, Elsewhere, IdentifyDomain, IdentifySublayer, SplitN;
  }

  /** A package deeper below its domain: two segments name the sublayer where something is declared
      below the first one, and otherwise the first one does. */
  lemma DeepBelowDomain(arch: Arch, prefix: string, d: string, a: string, b: string, t: string)
    requires Segment(d) && Segment(a) && Segment(b) && Tail(t) && arch.layout.domainDir != ""
    requires Elsewhere(arch.layout, arch.layout.domainDir + "/" + (d + ("/" + (a + ("/" + (b + t))))))
    ensures Classify(arch, prefix + (arch.layout.domainDir + "/" + (d + ("/" + (a + ("/" + (b + t)))))), prefix)
         == if d == "" then Classified(Unclassified, "", "")
            else if NestedBelow(arch.layers.sublayers, a) then Classified(Domain, d, a + "/" + b)
            else if a == "" then Classified(DomainRoot, d, "")
            else Classified(Domain, d, a)
  {
    var below := a + ("/" + (b + t));
    ElsewhereKinds(arch, prefix, arch.layout.domainDir + "/" + (d + ("/" + below)));
    DomainName(arch, prefix, d, "/" + below);
    SublayerOf(arch, prefix, d, below);
    FirstTwoOf(a, b, t);
    hide Classify, Elsewhere, IdentifyDomain, IdentifySublayer, SplitN, NestedBelow;
  }

  lemma FirstTwoOf(a: string, b: string, t: string)
    requires Segment(a) && Segment(b) && Tail(t)
    ensures var parts := SplitN(a + ("/" + (b + t)), '/', 3);
            |parts| >= 2 && parts[0] == a && parts[1] == b
  {
    FirstOf(a, "/" + (b + t), 3);
    assert ("/" + (b + t))[1..] == b + t;
    FirstOf(b, t, 2);
    hide SplitN;
  }

  /** In a layout without a domain directory the first segment is the sublayer, if it is one. */
  lemma FlatKinds(arch: Arch, prefix: string, a: string, t: string)
    requires Segment(a) && Tail(t) && arch.layout.domainDir == "" && Elsewhere(arch.layout, a + t)
    ensures Classify(arch, prefix + (a + t), prefix)
         == if a != "" && a in arch.layers.sublayers then Classified(Domain, "", a) else Classified(Unclassified, "", "")
  {
    var layout := arch.layout;
    InDirIff(prefix, a + t, layout.sharedDir);
    InDirIff(prefix, a + t, layout.appDir);
    InDirIff(prefix, a + t, layout.serverDir);
    InDirIff(prefix, a + t, layout.orchestrationDir);
    Behind(prefix, a + t);
    FirstOf(a, t, 2);
    hide IsUnderInternalDir, IsTransport, InDir, BelowDir, IdentifyDomain, IdentifySublayer, SplitN;
  }

  // The transaction rule's layer.

  /** In a flat layout, of a package in the internal tree. */
  lemma FlatLayer(arch: Arch, prefix: string, a: string, t: string)
    requires Segment(a) && Tail(t) && arch.layout.domainDir == ""
    ensures PackageLayer(arch, prefix + (a + t), prefix) == if a in arch.layers.sublayers then a else ""
  {
    Behind(prefix, a + t);
    FirstOf(a, t, 2);
    hide SplitN;
  }

  /** Outside the domains there is none. */
  lemma NoLayer(arch: Arch, prefix: string, pkgPath: string, d: string)
    requires arch.layout.domainDir != "" && Segment(d)
    ensures !Begins(pkgPath, prefix + arch.layout.domainDir + "/") ==> PackageLayer(arch, pkgPath, prefix) == ""
    ensures pkgPath == prefix + arch.layout.domainDir + "/" + d ==> PackageLayer(arch, pkgPath, prefix) == ""
  {
    Behind(prefix + arch.layout.domainDir + "/", d);
    SplitNNoSep(d, 2);
    hide SplitN, NestedLayer;
  }

  /** Below a domain it is the first segment or the first two, if that is declared; only the two where
      anything is declared below the first one. */
  lemma LayerBelowDomain(arch: Arch, prefix: string, d: string, a: string, b: string, t: string)
    requires arch.layout.domainDir != "" && Segment(d) && Segment(a) && Segment(b) && Tail(t)
    ensures PackageLayer(arch, prefix + arch.layout.domainDir + "/" + d + "/" + a, prefix) == if a in arch.layers.sublayers then a else ""
    ensures var sublayers := arch.layers.sublayers;
            PackageLayer(arch, prefix + arch.layout.domainDir + "/" + d + "/" + (a + ("/" + (b + t))), prefix) ==
            if NestedBelow(sublayers, a) then (if a + "/" + b in sublayers then a + "/" + b else "")
            else if a in sublayers then a
            else ""
  {
    BelowDomainParts(arch, prefix, prefix + arch.layout.domainDir + "/" + d + "/" + a, d, a);
    var below := a + ("/" + (b + t));
    BelowDomainParts(arch, prefix, prefix + arch.layout.domainDir + "/" + d + "/" + below, d, below);
    SplitNNoSep(a, 3);
    FirstTwoOf(a, b, t);
    NestedIff(arch.layers.sublayers, a);
    hide PackageLayer, SplitN, HasNested, NestedBelow;
  }

  // The structural rule's part below a domain.

  /** One slash at the end of a module name is ignored. */
  function ModulePart(moduleName: string): string {
    if |moduleName| > 0 && moduleName[|moduleName| - 1] == '/' then moduleName[..|moduleName| - 1] else moduleName
  }

  predicate IsBelow(moduleName: string, layout: LayoutModel, pkgPath: string, d: string, rel: string) {
    && Segment(d) && rel != "" && ModulePart(moduleName) != "" && layout.internalRoot != "" && layout.domainDir != ""
    && pkgPath == ModulePart(moduleName) + "/" + layout.internalRoot + "/" + (layout.domainDir + "/" + (d + "/" + rel))
  }

  lemma DomainRelativeIff(moduleName: string, arch: Arch, pkgPath: string, rel: string)
    ensures DomainRelative(moduleName, arch, pkgPath) == Some(rel) <==> exists d :: IsBelow(moduleName, arch.layout, pkgPath, d, rel)
  {
    var m := ModulePart(moduleName);
    var front := m + "/" + arch.layout.internalRoot + "/";
    ModulePartIsTrim(moduleName);
    if d :| IsBelow(moduleName, arch.layout, pkgPath, d, rel) {
      PartBelow(moduleName, arch, pkgPath, d, rel);
    }
    if DomainRelative(moduleName, arch, pkgPath) == Some(rel) {
      var below := TrimPrefix(TrimPrefix(pkgPath, front), arch.layout.domainDir + "/");
      assert pkgPath == front + (arch.layout.domainDir + "/" + below);
      var d := Divided(below, rel);
      assert IsBelow(moduleName, arch.layout, pkgPath, d, rel);
    }
  }

  lemma PartBelow(moduleName: string, arch: Arch, pkgPath: string, d: string, rel: string)
    requires IsBelow(moduleName, arch.layout, pkgPath, d, rel)
    ensures DomainRelative(moduleName, arch, pkgPath) == Some(rel)
  {
    ModulePartIsTrim(moduleName);
    hide ModulePart;
    Behind(ModulePart(moduleName) + "/" + arch.layout.internalRoot + "/", arch.layout.domainDir + "/" + (d + "/" + rel));
    Behind(arch.layout.domainDir + "/", d + "/" + rel);
    SplitNHead(d, rel, 2);
  }

  /** What SplitN divides in two. */
  lemma Divided(s: string, rel: string) returns (d: string)
    requires |SplitN(s, '/', 2)| == 2 && SplitN(s, '/', 2)[1] == rel
    ensures Segment(d) && s == d + "/" + rel
  {
    var more, rest;
    d, more, rest := FirstSegment(s);
    var t := if more then "/" + rest else "";
    FirstOf(d, t, 2);
    assert s == d + t;
    assert more && t[1..] == rest;
  }

  lemma ModulePartIsTrim(moduleName: string)
    ensures TrimSuffix(moduleName, "/") == ModulePart(moduleName)
  {
    if |moduleName| > 0 {
      assert moduleName[|moduleName| - 1..] == [moduleName[|moduleName| - 1]];
    }
  }
}
