/** naming.NewSnakeCaseFiles: which file names pass, and whether the suggested rename does. */
module SnakeFiles {
  import opened CaseNames
  import opened GoStrings

  // isSnakeCase.

  predicate IsSnakeChar(c: char) {
    IsLower(c) || IsDigit(c) || c == '_'
  }

  /** The name without ".go", then without "_test". */
  function Stem(filename: string): string {
    TrimSuffix(TrimSuffix(filename, ".go"), "_test")
  }

  lemma {:induction false} PartsAreShorter(s: string, sep: char)
    ensures sep in s ==> forall i :: 0 <= i < |Split(s, sep)| ==> |Split(s, sep)[i]| < |s|
    ensures forall i :: 0 <= i < |Split(s, sep)| ==> |Split(s, sep)[i]| <= |s|
    ensures sep !in s ==> Split(s, sep) == [s]
  {
    if s != "" {
      PartsAreShorter(s[1..], sep);
      assert s == [s[0]] + s[1..];
    }
  }

  predicate IsSnakeCase(filename: string)
    decreases |filename|
  {
    var name := Stem(filename);
    PartsAreShorter(name, '.');
    if '.' in name then
      forall i :: 0 <= i < |Split(name, '.')| ==> Split(name, '.')[i] != "" && IsSnakeCase(Split(name, '.')[i])
    else
      name != "" && forall i :: 0 <= i < |name| ==> IsSnakeChar(name[i])
  }

  predicate SnakeText(s: string) {
    forall i :: 0 <= i < |s| ==> IsSnakeChar(s[i])
  }

  predicate AllPass(parts: seq<string>) {
    forall i :: 0 <= i < |parts| ==> parts[i] != "" && IsSnakeCase(parts[i])
  }

  lemma StemCases(filename: string)
    ensures IsSnakeCase(filename) <==>
      if '.' in Stem(filename) then AllPass(Split(Stem(filename), '.')) else Stem(filename) != "" && SnakeText(Stem(filename))
  {
    hide Stem, Split;
    PartsAreShorter(Stem(filename), '.');
  }

  lemma StemParts(filename: string)
    ensures '.' in Stem(filename) ==> forall i :: 0 <= i < |Split(Stem(filename), '.')| ==> |Split(Stem(filename), '.')[i]| < |filename|
  {
    hide Split;
    PartsAreShorter(Stem(filename), '.');
  }

  /** What the method works with: the stem and its parts. */
  lemma Unfolded(filename: string, name: string, parts: seq<string>)
    requires name == TrimSuffix(TrimSuffix(filename, ".go"), "_test") && parts == Split(name, '.')
    ensures IsSnakeCase(filename) <==> if '.' in name then AllPass(parts) else name != "" && SnakeText(name)
    ensures '.' in name ==> forall i :: 0 <= i < |parts| ==> |parts[i]| < |filename|
  {
    StemIs(filename);
    hide *;
    StemCases(filename);
    StemParts(filename);
  }

  lemma StemIs(filename: string)
    ensures Stem(filename) == TrimSuffix(TrimSuffix(filename, ".go"), "_test")
  {
  }

  /** isSnakeCase, with its loops. */
  method CheckSnakeCase(filename: string) returns (r: bool)
    ensures r <==> IsSnakeCase(filename)
    decreases |filename|, 1
  {
    hide Split, Stem, TrimSuffix, HasSuffix, IsSnakeCase, SnakeText, IsSnakeChar;
    var name := TrimSuffix(filename, ".go");
    name := TrimSuffix(name, "_test");
    var parts := Split(name, '.');
    Unfolded(filename, name, parts);
    if '.' in name {
      r := CheckParts(filename, parts);
      return;
    }
    if name == "" {
      return false;
    }
    r := CheckText(name);
  }

  /** The loop over the parts of a name with dots. */
  method CheckParts(ghost filename: string, parts: seq<string>) returns (r: bool)
    requires forall i :: 0 <= i < |parts| ==> |parts[i]| < |filename|
    ensures r <==> AllPass(parts)
    decreases |filename|, 0
  {
    hide IsSnakeCase;
    for i := 0 to |parts|
      invariant forall j :: 0 <= j < i ==> parts[j] != "" && IsSnakeCase(parts[j])
    {
      if parts[i] == "" {
        return false;
      }
      var ok := CheckSnakeCase(parts[i]);
      if !ok {
        return false;
      }
    }
    return true;
  }

  /** The loop over the characters of a name without dots. */
  method CheckText(name: string) returns (r: bool)
    ensures r <==> SnakeText(name)
  {
    for i := 0 to |name|
      invariant forall j :: 0 <= j < i ==> IsSnakeChar(name[j])
    {
      if !IsLower(name[i]) && !IsDigit(name[i]) && name[i] != '_' {
        return false;
      }
    }
    return true;
  }

  // toSnakeCase.

  /** filepath.Ext of a base name: from the last dot on. */
  function Ext(filename: string): string {
    if filename == "" then ""
    else if '.' in filename[1..] || filename[0] != '.' then Ext(filename[1..])
    else filename
  }

  function ToSnakeCase(filename: string): string {
    Snake(TrimSuffix(filename, Ext(filename))) + Ext(filename)
  }

  // Which names pass.

  /** The dot-separated segments of the name without ".go". */
  function Segments(filename: string): (parts: seq<string>)
    ensures |parts| >= 1
  {
    Split(TrimSuffix(filename, ".go"), '.')
  }

  /** Every segment is made of lower-case letters, digits and underscores and is neither empty nor
      just a test suffix; the last of several may not even be two of them. */
  predicate SegmentsPass(parts: seq<string>)
    requires |parts| >= 1
  {
    && (forall i :: 0 <= i < |parts| ==> SnakeText(parts[i]) && parts[i] != "" && parts[i] != "_test")
    && (|parts| > 1 ==> parts[|parts| - 1] != "_test_test")
  }

  /** Text without a dot goes onto the last segment. */
  lemma {:induction false} SplitOntoLast(a: string, u: string)
    requires '.' !in u
    ensures var p := Split(a, '.');
            Split(a + u, '.') == p[..|p| - 1] + [p[|p| - 1] + u]
  {
    if a == "" {
      assert a + u == u;
      PartsAreShorter(u, '.');
    } else {
      SplitOntoLast(a[1..], u);
      assert (a + u)[1..] == a[1..] + u && (a + u)[0] == a[0];
      SplitCons(a);
      SplitCons(a + u);
      var p := Split(a[1..], '.');
      hide *;
      OntoLast(a[0], p, u);
    }
  }

  function ConsPart(c: char, p: seq<string>): seq<string>
    requires p != []
  {
    if c == '.' then [""] + p else [[c] + p[0]] + p[1..]
  }

  lemma SplitCons(s: string)
    requires s != ""
    ensures Split(s, '.') == ConsPart(s[0], Split(s[1..], '.'))
  {
  }

  lemma OntoLast(c: char, p: seq<string>, u: string)
    requires p != []
    ensures var q := ConsPart(c, p);
            q != [] && ConsPart(c, p[..|p| - 1] + [p[|p| - 1] + u]) == q[..|q| - 1] + [q[|q| - 1] + u]
  {
    if |p| == 1 {
      assert [c] + (p[0] + u) == ([c] + p[0]) + u;
      assert p[..0] + [p[0] + u] == [p[0] + u];
    } else {
      assert (p[..|p| - 1] + [p[|p| - 1] + u])[0] == p[0];
    }
  }

  lemma SnakeTextConcat(a: string, b: string)
    ensures SnakeText(a + b) <==> SnakeText(a) && SnakeText(b)
  {
    var s := a + b;
    if SnakeText(s) {
      assert forall i :: 0 <= i < |a| ==> a[i] == s[i];
      assert forall i :: 0 <= i < |b| ==> b[i] == s[|a| + i];
    }
  }

  lemma TestText()
    ensures SnakeText("_test") && '.' !in "_test"
  {
  }

  /** "_test" is cut off the end of a segment, or it is not there. */
  lemma CutTest(t: string)
    ensures SnakeText(t) <==> SnakeText(TrimSuffix(t, "_test"))
    ensures HasSuffix(t, "_test") ==> t == TrimSuffix(t, "_test") + "_test"
    ensures TrimSuffix(t, "_test") == "" <==> t == "" || t == "_test"
    ensures TrimSuffix(t, "_test") == "_test" <==> t == "_test_test"
  {
    var a := TrimSuffix(t, "_test");
    TestText();
    SnakeTextConcat(a, "_test");
    assert "_test" + "_test" == "_test_test";
    assert "_test_test"[5..] == "_test" && "_test_test"[..5] == "_test";
  }

  lemma NoDotNoGo(t: string)
    requires '.' !in t
    ensures !HasSuffix(t, ".go")
  {
    assert forall k :: 0 <= k < |t| ==> t[k..][0] == t[k] != '.';
    assert ".go"[0] == '.';
  }

  lemma SuffixOfSuffix(s: string, p: string, t: string)
    requires HasSuffix(s, p) && HasSuffix(p, t)
    ensures HasSuffix(s, t)
  {
    assert s == s[..|s| - |p|] + p;
    assert p == p[..|p| - |t|] + t;
  }

  lemma SuffixWithin(a: string, b: string, t: string)
    requires HasSuffix(a + b, t) && |t| <= |b|
    ensures HasSuffix(b, t)
  {
    var s := a + b;
    assert s[|s| - |t|..] == b[|b| - |t|..];
  }

  /** A segment on its own. */
  lemma SegmentAlone(t: string)
    requires '.' !in t
    ensures IsSnakeCase(t) <==> SnakeText(t) && t != "" && t != "_test"
  {
    NoDotNoGo(t);
    CutTest(t);
    assert '.' !in Stem(t);
  }

  lemma {:induction false} LastSegmentEnds(s: string)
    ensures var p := Split(s, '.'); HasSuffix(s, p[|p| - 1])
  {
    if s != "" {
      LastSegmentEnds(s[1..]);
      SegmentsHaveNoDot(s[1..]);
      PartsAreShorter(s[1..], '.');
      var q := Split(s[1..], '.');
      SplitHead(s, '.');
      hide Split;
      if |q| == 1 && s[0] != '.' {
        assert q == [s[1..]] && q[1..] == [] && [s[0]] + s[1..] == s;
        assert Split(s, '.') == [s];
        WholeIsSuffix(s);
      } else {
        SuffixOfTail(s, q[|q| - 1]);
      }
    }
  }

  lemma WholeIsSuffix(s: string)
    ensures HasSuffix(s, s)
  {
    assert s[0..] == s;
  }

  lemma SuffixOfTail(s: string, t: string)
    requires s != "" && HasSuffix(s[1..], t)
    ensures HasSuffix(s, t)
  {
    assert s[|s| - |t|..] == s[1..][|s| - 1 - |t|..];
  }

  lemma {:induction false} SegmentsHaveNoDot(s: string)
    ensures forall i :: 0 <= i < |Split(s, '.')| ==> '.' !in Split(s, '.')[i]
    ensures |Split(s, '.')| == 1 <==> '.' !in s
  {
    if s != "" {
      SegmentsHaveNoDot(s[1..]);
      assert s == [s[0]] + s[1..];
    }
  }

  /** The segments before and after "_test" is cut off a whole name. */
  lemma CutSegments(name: string)
    ensures var p, q := Split(name, '.'), Split(TrimSuffix(name, "_test"), '.');
            var n := |p| - 1;
            |q| == |p| && p[..n] == q[..n] && q[n] == TrimSuffix(p[n], "_test")
  {
    var a := TrimSuffix(name, "_test");
    var p, q := Split(name, '.'), Split(a, '.');
    var n := |p| - 1;
    TestText();
    if HasSuffix(name, "_test") {
      assert name == a + "_test";
      SplitOntoLast(a, "_test");
      assert p[n] == q[n] + "_test";
    } else {
      LastSegmentEnds(name);
      if HasSuffix(p[n], "_test") {
        SuffixOfSuffix(name, p[n], "_test");
      }
    }
  }

  /** Exactly which names pass, for every string. */
  lemma PassesIffSegments(f: string)
    ensures IsSnakeCase(f) <==> SegmentsPass(Segments(f))
  {
    hide *;
    var name := TrimSuffix(f, ".go");
    StemOf(f);
    var p, q := Segments(f), Split(Stem(f), '.');
    var n := |p| - 1;
    CutSegments(name);
    CutTest(p[n]);
    SegmentsHaveNoDot(Stem(f));
    PartsAreShorter(Stem(f), '.');
    if '.' in Stem(f) {
      ManyPass(f);
      assert forall i :: 0 <= i < n ==> q[i] == q[..n][i] == p[..n][i] == p[i];
      ManySegmentsPass(p, q);
    } else {
      NoDotPasses(f);
      OneSegmentPasses(p);
    }
  }

  lemma StemOf(f: string)
    ensures Segments(f) == Split(TrimSuffix(f, ".go"), '.') && Stem(f) == TrimSuffix(TrimSuffix(f, ".go"), "_test")
  {
  }

  lemma OneSegmentPasses(p: seq<string>)
    requires |p| == 1
    ensures SegmentsPass(p) <==> SnakeText(p[0]) && p[0] != "" && p[0] != "_test"
  {
    hide SnakeText;
  }

  lemma ManySegmentsPass(p: seq<string>, q: seq<string>)
    requires |p| == |q| > 1 && forall i :: 0 <= i < |p| - 1 ==> q[i] == p[i]
    requires var s, t := p[|p| - 1], q[|p| - 1];
             && (SnakeText(s) <==> SnakeText(t)) && (t == "" <==> s == "" || s == "_test")
             && (t == "_test" <==> s == "_test_test")
    ensures SegmentsPass(p) <==> forall i :: 0 <= i < |q| ==> SnakeText(q[i]) && q[i] != "" && q[i] != "_test"
  {
    hide SnakeText;
    if SegmentsPass(p) {
      forall i | 0 <= i < |q|
        ensures SnakeText(q[i]) && q[i] != "" && q[i] != "_test"
      {
        assert SnakeText(p[i]);
      }
    }
    if forall i :: 0 <= i < |q| ==> SnakeText(q[i]) && q[i] != "" && q[i] != "_test" {
      forall i | 0 <= i < |p|
        ensures SnakeText(p[i]) && p[i] != "" && p[i] != "_test"
      {
        assert SnakeText(q[i]);
      }
    }
  }

  lemma ManyPass(f: string)
    requires '.' in Stem(f)
    ensures var q := Split(Stem(f), '.');
            IsSnakeCase(f) <==> forall i :: 0 <= i < |q| ==> SnakeText(q[i]) && q[i] != "" && q[i] != "_test"
  {
    hide SnakeText, Stem;
    var q := Split(Stem(f), '.');
    PartsAreShorter(Stem(f), '.');
    SegmentsHaveNoDot(Stem(f));
    forall i | 0 <= i < |q|
      ensures IsSnakeCase(q[i]) <==> SnakeText(q[i]) && q[i] != "" && q[i] != "_test"
    {
      SegmentAlone(q[i]);
    }
  }

  lemma NoDotPasses(f: string)
    requires '.' !in Stem(f)
    ensures IsSnakeCase(f) <==> Stem(f) != "" && SnakeText(Stem(f))
  {
  }

  // The suggested rename.

  predicate NameText(s: string) {
    forall i :: 0 <= i < |s| ==> IsSnakeChar(s[i]) || IsUpper(s[i])
  }

  /** What a segment must be for its converted form to pass. */
  predicate Convertible(t: string) {
    NameText(t) && t != "" && Snake(t) != "_test"
  }

  /** What a file name must be for its rename to pass: an extension, which the rename leaves alone,
      without upper case, and segments of letters, digits and underscores that do not come out as
      empty or as mere test suffixes. */
  predicate Renamable(f: string) {
    var parts := Segments(f);
    && NoUpper(Ext(f))
    && (forall i :: 0 <= i < |parts| ==> Convertible(parts[i]))
    && (|parts| > 1 ==> Snake(parts[|parts| - 1]) != "_test_test")
  }

  lemma {:induction false} SnakeAfterDot(prev: char, a: string, b: string)
    ensures SnakeAfter(prev, a + "." + b) == SnakeAfter(prev, a) + "." + Snake(b)
    decreases a
  {
    var s := a + "." + b;
    if a == "" {
      assert s == "." + b && s[0] == '.' && s[1..] == b;
      SnakeAfterStep(prev, s);
      assert SnakeAfter(prev, s) == "." + SnakeAfter('.', b);
      SnakeStart(b);
    } else {
      var t := a[1..] + "." + b;
      assert s[0] == a[0] && s[1..] == t;
      SnakeAfterDot(a[0], a[1..], b);
      SnakeAfterStep(prev, s);
      SnakeAfterStep(prev, a);
      assert Boundary(prev, a[0], a[1..]) <==> Boundary(prev, a[0], t) by {
        assert a[1..] != "" ==> t[0] == a[1];
        assert a[1..] == "" ==> t[0] == '.';
      }
      var sep := if Boundary(prev, a[0], t) then "_" else "";
      hide *;
      Regroup4(sep, [ToLower(a[0])], SnakeAfter(a[0], a[1..]), Snake(b));
    }
  }

  lemma Regroup4(p: string, q: string, x: string, y: string)
    ensures p + (q + (x + "." + y)) == p + (q + x) + "." + y
  {
  }

  lemma SnakeStart(b: string)
    ensures SnakeAfter('.', b) == Snake(b)
  {
    if b != "" {
      SnakeAfterStep('.', b);
    }
  }

  lemma SnakeDot(a: string, b: string)
    ensures Snake(a + "." + b) == Snake(a) + "." + Snake(b)
  {
    if a == "" {
      assert "" + "." + b == "." + b && ("." + b)[1..] == b;
      SnakeStart(b);
      assert Snake("." + b) == "." + Snake(b);
      assert Snake("") + "." + Snake(b) == "." + Snake(b);
    } else {
      assert (a + "." + b)[0] == a[0] && (a + "." + b)[1..] == a[1..] + "." + b;
      SnakeAfterDot(a[0], a[1..], b);
    }
  }

  lemma {:induction false} SnakeAfterText(prev: char, t: string)
    ensures SnakeText(SnakeAfter(prev, t)) <==> NameText(t)
    ensures '.' in SnakeAfter(prev, t) <==> '.' in t
    decreases t
  {
    if t != "" {
      var sep := if Boundary(prev, t[0], t[1..]) then "_" else "";
      var rest := SnakeAfter(t[0], t[1..]);
      SnakeAfterText(t[0], t[1..]);
      assert t == [t[0]] + t[1..];
      SnakeAfterStep(prev, t);
      SnakeTextConcat(sep, [ToLower(t[0])] + rest);
      SnakeTextConcat([ToLower(t[0])], rest);
      assert SnakeText([ToLower(t[0])]) <==> IsSnakeChar(ToLower(t[0])) by {
        assert [ToLower(t[0])][0] == ToLower(t[0]);
      }
      assert NameText(t) <==> (IsSnakeChar(t[0]) || IsUpper(t[0])) && NameText(t[1..]) by {
        assert forall i :: 0 <= i < |t| - 1 ==> t[1..][i] == t[i + 1];
      }
    }
  }

  lemma SnakeOfText(t: string)
    ensures SnakeText(Snake(t)) <==> NameText(t)
    ensures '.' in Snake(t) <==> '.' in t
    ensures Snake(t) == "" <==> t == ""
  {
    if t != "" {
      SnakeAfterText('.', t);
      SnakeStart(t);
    }
  }

  function SnakeAll(parts: seq<string>): seq<string> {
    seq(|parts|, i requires 0 <= i < |parts| => Snake(parts[i]))
  }

  /** Converting a name converts its segments one by one. */
  lemma {:induction false} SnakeSegments(s: string)
    ensures Split(Snake(s), '.') == SnakeAll(Split(s, '.'))
    decreases |s|
  {
    var a, more, b := FirstDot(s);
    PartsAreShorter(a, '.');
    SnakeOfText(a);
    PartsAreShorter(Snake(a), '.');
    hide Snake, Split;
    if more {
      SnakeSegments(b);
      SegmentsCons(a, b);
      assert s == a + "." + b;
    } else {
      assert s == a;
    }
  }

  lemma SegmentsCons(a: string, b: string)
    requires Split(a, '.') == [a] && Split(Snake(a), '.') == [Snake(a)] && Split(Snake(b), '.') == SnakeAll(Split(b, '.'))
    ensures Split(Snake(a + "." + b), '.') == SnakeAll(Split(a + "." + b, '.'))
  {
    hide Snake, Split;
    SnakeDot(a, b);
    WithDot(a, b);
    WithDot(Snake(a), Snake(b));
    assert SnakeAll([a] + Split(b, '.')) == [Snake(a)] + SnakeAll(Split(b, '.'));
  }

  lemma WithDot(a: string, b: string)
    ensures Split(a + "." + b, '.') == Split(a, '.') + Split(b, '.')
  {
    hide Split;
    assert a + "." + b == a + ['.'] + b;
    SplitConcat(a, b, '.');
  }

  lemma {:induction false} FirstDot(s: string) returns (a: string, more: bool, b: string)
    ensures '.' !in a && s == a + if more then "." + b else ""
  {
    if s == "" {
      a, more, b := "", false, "";
    } else if s[0] == '.' {
      a, more, b := "", true, s[1..];
    } else {
      a, more, b := FirstDot(s[1..]);
      a := [s[0]] + a;
      assert s == [s[0]] + s[1..];
    }
  }

  lemma {:induction false} ExtShape(f: string) returns (a: string, b: string)
    ensures if '.' in f then f == a + "." + b && '.' !in b && Ext(f) == "." + b else Ext(f) == "" && a == f
  {
    if f == "" {
      a, b := "", "";
    } else if '.' in f[1..] {
      a, b := ExtShape(f[1..]);
      a := [f[0]] + a;
      assert f == [f[0]] + f[1..];
    } else if f[0] == '.' {
      a, b := "", f[1..];
      assert f == "." + f[1..];
    } else {
      var x, y := ExtShape(f[1..]);
      a, b := f, "";
    }
  }

  /** The extension as a segment. */
  lemma ExtSegment(a: string, b: string)
    requires '.' !in b
    ensures Split(a + "." + b, '.') == Split(a, '.') + [b]
  {
    assert a + "." + b == a + ['.'] + b;
    SplitConcat(a, b, '.');
    PartsAreShorter(b, '.');
  }

  lemma EndsInGo(a: string, b: string)
    requires '.' !in b
    ensures HasSuffix(a + "." + b, ".go") <==> b == "go"
    ensures b == "go" ==> TrimSuffix(a + "." + b, ".go") == a
  {
    var s := a + "." + b;
    if HasSuffix(s, ".go") {
      NoDotNoGo(b);
      if |b| >= 3 {
        SuffixWithin(a + ".", b, ".go");
      }
      assert s[|s| - 3..] == ".go" && s[|a|] == '.';
      assert s[|s| - 2] == ".go"[1] && s[|s| - 1] == ".go"[2] && s[|s| - 2..] == ".go"[1..];
      assert |b| == 2;
    }
    if b == "go" {
      assert s == a + ".go";
    }
  }

  lemma NoGo(s: string)
    requires '.' !in s
    ensures TrimSuffix(s, ".go") == s && Segments(s) == [s]
  {
    PartsAreShorter(s, '.');
    NoDotNoGo(s);
  }

  /** A file without a dot, or with the extension ".go", has all its segments converted. */
  lemma ConvertedWhole(f: string)
    requires Ext(f) == "" || Ext(f) == ".go"
    ensures Segments(ToSnakeCase(f)) == SnakeAll(Segments(f))
  {
    var a, b := ExtShape(f);
    SnakeSegments(a);
    if '.' in f {
      assert ("." + b)[1..] == b && ".go"[1..] == "go";
      RenameText(f, a, b);
      hide *;
      EndsInGo(a, b);
      EndsInGo(Snake(a), b);
    } else {
      SnakeOfText(f);
      hide *;
      WholeRename(f);
      NoGo(f);
      NoGo(Snake(f));
      SnakeSegments(f);
      PartsAreShorter(f, '.');
      PartsAreShorter(Snake(f), '.');
    }
  }

  /** Any other extension is a segment that stays as it is. */
  lemma ConvertedStem(f: string) returns (a: string, b: string)
    requires Ext(f) != "" && Ext(f) != ".go"
    ensures Ext(f) == "." + b
    ensures Segments(f) == Split(a, '.') + [b] && Segments(ToSnakeCase(f)) == SnakeAll(Split(a, '.')) + [b]
  {
    hide *;
    a, b := ExtShape(f);
    SnakeSegments(a);
    RenameText(f, a, b);
    NotGo(b);
    StemSegments(a, b);
    StemSegments(Snake(a), b);
    assert Snake(a) + "." + b == Snake(a) + ['.'] + b;
  }

  lemma NotGo(b: string)
    requires "." + b != ".go"
    ensures b != "go"
  {
    assert "." + "go" == ".go";
  }

  lemma StemSegments(a: string, b: string)
    requires '.' !in b && b != "go"
    ensures Segments(a + "." + b) == Split(a, '.') + [b]
  {
    hide HasSuffix, Split;
    EndsInGo(a, b);
    ExtSegment(a, b);
  }

  lemma ConvertedPasses(parts: seq<string>)
    requires |parts| >= 1
    ensures (forall i :: 0 <= i < |parts| ==> var t := SnakeAll(parts)[i]; SnakeText(t) && t != "" && t != "_test")
       <==> forall i :: 0 <= i < |parts| ==> Convertible(parts[i])
  {
    hide SnakeText, NameText, Snake;
    forall i | 0 <= i < |parts|
      ensures SnakeAll(parts)[i] == Snake(parts[i])
      ensures (SnakeText(Snake(parts[i])) && Snake(parts[i]) != "" && Snake(parts[i]) != "_test") <==> Convertible(parts[i])
    {
      SnakeOfText(parts[i]);
    }
  }

  lemma LowerExt(b: string)
    ensures SnakeText(b) <==> NameText(b) && NoUpper("." + b)
    ensures NoUpper("." + b) ==> Snake(b) == b
  {
    NoUpperConcat(".", b);
    SnakeNoUpper(b);
  }

  /** For every string: the suggested rename passes exactly when the name is renamable. */
  lemma RenameAcceptedIff(f: string)
    ensures IsSnakeCase(ToSnakeCase(f)) <==> Renamable(f)
  {
    PassesIffSegments(ToSnakeCase(f));
    var parts := Segments(f);
    if Ext(f) == "" || Ext(f) == ".go" {
      assert NoUpper(Ext(f));
      ConvertedWhole(f);
      ConvertedPasses(parts);
      hide Snake, NameText, SnakeText, NoUpper, Ext, Segments, ToSnakeCase, IsSnakeCase;
    } else {
      var a, b := ConvertedStem(f);
      hide Snake, NameText, SnakeText, NoUpper, Ext, Segments, ToSnakeCase, IsSnakeCase;
      ConvertedPasses(Split(a, '.'));
      LowerExt(b);
      ExtraSegment(Split(a, '.'), b);
    }
  }

  lemma ExtraSegment(front: seq<string>, b: string)
    requires |front| >= 1
    requires SnakeText(b) <==> NameText(b) && NoUpper("." + b)
    requires NoUpper("." + b) ==> Snake(b) == b
    requires (forall i :: 0 <= i < |front| ==> var t := SnakeAll(front)[i]; SnakeText(t) && t != "" && t != "_test")
        <==> forall i :: 0 <= i < |front| ==> Convertible(front[i])
    ensures SegmentsPass(SnakeAll(front) + [b]) <==>
      && NoUpper("." + b)
      && (forall i :: 0 <= i < |front| + 1 ==> Convertible((front + [b])[i]))
      && Snake(b) != "_test_test"
  {
    hide Snake, NameText, SnakeText, NoUpper;
    var q, p := SnakeAll(front) + [b], front + [b];
    assert q[|front|] == b && p[|front|] == b;
    assert forall i :: 0 <= i < |front| ==> q[i] == SnakeAll(front)[i] && p[i] == front[i];
  }

  lemma {:induction false} NoUpperConcat(a: string, b: string)
    ensures NoUpper(a + b) <==> NoUpper(a) && NoUpper(b)
  {
    var s := a + b;
    if NoUpper(s) {
      assert forall i :: 0 <= i < |a| ==> a[i] == s[i];
      assert forall i :: 0 <= i < |b| ==> b[i] == s[|a| + i];
    }
  }

  lemma RenameText(f: string, a: string, b: string)
    requires f == a + "." + b && Ext(f) == "." + b
    ensures f == a + ['.'] + b
    ensures ToSnakeCase(f) == Snake(a) + Ext(f) == Snake(a) + ['.'] + b
  {
    hide Snake;
    var e := "." + b;
    assert f == a + e && f[|a|..] == e && f[..|a|] == a;
    assert Snake(a) + ("." + b) == Snake(a) + ['.'] + b;
  }

  lemma WholeRename(f: string)
    requires Ext(f) == ""
    ensures ToSnakeCase(f) == Snake(f)
  {
    hide Snake, Ext;
    NothingToTrim(f);
    NothingToAdd(Snake(f));
  }

  lemma NothingToTrim(f: string)
    ensures TrimSuffix(f, "") == f
  {
  }

  lemma NothingToAdd(f: string)
    ensures f + "" == f
  {
  }

  /** For a Go file only the stem matters. */
  lemma GoRenameAcceptedIff(a: string)
    ensures var parts := Split(a, '.');
            IsSnakeCase(ToSnakeCase(a + ".go")) <==>
              && (forall i :: 0 <= i < |parts| ==> Convertible(parts[i]))
              && (|parts| > 1 ==> Snake(parts[|parts| - 1]) != "_test_test")
  {
    hide *;
    var f := a + ".go";
    GoStem(a);
    GoSegments(a);
    RenameAcceptedIff(f);
    RenamableIs(f, a);
  }

  lemma GoSegments(a: string)
    ensures Segments(a + ".go") == Split(a, '.') && NoUpper(".go")
  {
    GoStem(a);
    hide Split, TrimSuffix, Ext;
  }

  lemma RenamableIs(f: string, a: string)
    requires Ext(f) == ".go" && Segments(f) == Split(a, '.') && NoUpper(".go")
    ensures var parts := Split(a, '.');
            Renamable(f) <==>
              && (forall i :: 0 <= i < |parts| ==> Convertible(parts[i]))
              && (|parts| > 1 ==> Snake(parts[|parts| - 1]) != "_test_test")
  {
    hide Ext, Segments, Split, Snake, Convertible, NoUpper;
  }

  lemma {:induction false} ExtOfGo(a: string)
    ensures Ext(a + ".go") == ".go"
  {
    var f := a + ".go";
    if a == "" {
      assert f == ".go" && '.' !in f[1..];
    } else {
      ExtOfGo(a[1..]);
      assert f[1..] == a[1..] + ".go";
      assert f[1..][|a| - 1] == '.';
    }
  }

  /** A hyphen is such a case: the file fails, and the suggestion is the file itself. */
  lemma HyphenIsNotConverted()
    ensures !IsSnakeCase("my-file" + ".go") && ToSnakeCase("my-file" + ".go") == "my-file" + ".go"
  {
    hide *;
    var a := "my-file";
    HyphenText(a);
    GoRenameAcceptedIff(a);
    PartsAreShorter(a, '.');
    assert Split(a, '.')[0] == a;
    NotConvertible(a);
    GoStem(a);
    UnchangedIff(a + ".go");
  }

  lemma HyphenText(a: string)
    requires a == "my-file"
    ensures !NameText(a) && NoUpper(a) && '.' !in a
  {
    assert a[2] == '-';
  }

  lemma NotConvertible(t: string)
    requires !NameText(t)
    ensures !Convertible(t)
  {
  }

  lemma GoStem(a: string)
    ensures Ext(a + ".go") == ".go" && TrimSuffix(a + ".go", ".go") == a
  {
    ExtOfGo(a);
  }

  /** The suggestion repeats the name exactly when the stem has no upper-case letter. */
  lemma UnchangedIff(f: string)
    ensures ToSnakeCase(f) == f <==> NoUpper(TrimSuffix(f, Ext(f)))
  {
    var a := TrimSuffix(f, Ext(f));
    ExtIsSuffix(f);
    assert f == a + Ext(f);
    SnakeNoUpper(a);
    if Snake(a) + Ext(f) == a + Ext(f) {
      assert |Snake(a)| == |a|;
      assert (Snake(a) + Ext(f))[..|a|] == Snake(a) && (a + Ext(f))[..|a|] == a;
    }
  }

  lemma {:induction false} ExtIsSuffix(f: string)
    ensures HasSuffix(f, Ext(f))
  {
    var a, b := ExtShape(f);
    hide Ext;
    if '.' in f {
      var e := "." + b;
      assert f == a + e && f[|a|..] == e;
    }
  }

  // The names the documentation has in mind.

  /** Starts with a letter or digit and has only letters, digits and underscores. */
  predicate IsSegment(t: string) {
    t != "" && t[0] != '_' && NameText(t)
  }

  predicate WellNamed(filename: string) {
    forall i :: 0 <= i < |Split(filename, '.')| ==> IsSegment(Split(filename, '.')[i])
  }

  lemma SegmentConverts(t: string)
    requires IsSegment(t)
    ensures Convertible(t) && Snake(t) != "_test_test" && t != "_test" && t != "_test_test"
  {
    assert Snake(t)[0] == ToLower(t[0]);
    assert "_test"[0] == '_' && "_test_test"[0] == '_';
  }

  lemma SegmentsOfWellNamed(f: string)
    requires WellNamed(f)
    ensures forall i :: 0 <= i < |Segments(f)| ==> IsSegment(Segments(f)[i])
  {
    if HasSuffix(f, ".go") {
      var a := TrimSuffix(f, ".go");
      assert f == a + "." + "go";
      ExtSegment(a, "go");
      assert forall i :: 0 <= i < |Split(a, '.')| ==> Split(a, '.')[i] == Split(f, '.')[i];
    }
  }

  /** For a file whose segments start with a letter or digit the extension alone decides. */
  lemma WellNamedRenameAcceptedIff(f: string)
    requires WellNamed(f)
    ensures IsSnakeCase(ToSnakeCase(f)) <==> NoUpper(Ext(f))
  {
    hide Snake, NoUpper, Ext, ToSnakeCase, IsSnakeCase;
    SegmentsOfWellNamed(f);
    RenameAcceptedIff(f);
    forall i | 0 <= i < |Segments(f)|
      ensures Convertible(Segments(f)[i]) && Snake(Segments(f)[i]) != "_test_test"
    {
      SegmentConverts(Segments(f)[i]);
    }
  }
}
