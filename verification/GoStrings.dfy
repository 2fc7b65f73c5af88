/** The operations of Go's `strings` package that the modelled code uses, on byte strings.
    Separators are always a single byte. */
module GoStrings {

  predicate IsDigit(c: char) {
    '0' <= c <= '9'
  }

  predicate HasPrefix(s: string, p: string) {
    p <= s
  }

  predicate HasSuffix(s: string, t: string) {
    |t| <= |s| && s[|s| - |t|..] == t
  }

  function TrimPrefix(s: string, p: string): string {
    if HasPrefix(s, p) then s[|p|..] else s
  }

  function TrimSuffix(s: string, t: string): string {
    if HasSuffix(s, t) then s[..|s| - |t|] else s
  }

  /** `strings.Split(s, sep)`. */
  function Split(s: string, sep: char): (parts: seq<string>)
    ensures |parts| >= 1
  {
    if s == "" then [""]
    else
      var rest := Split(s[1..], sep);
      if s[0] == sep then [""] + rest else [[s[0]] + rest[0]] + rest[1..]
  }

  /** `strings.SplitN(s, sep, n)` for positive n. */
  function SplitN(s: string, sep: char, n: nat): (parts: seq<string>)
    requires n >= 1
    ensures 1 <= |parts| <= n
  {
    if n == 1 || s == "" then [s]
    else if s[0] == sep then [""] + SplitN(s[1..], sep, n - 1)
    else
      var rest := SplitN(s[1..], sep, n);
      [[s[0]] + rest[0]] + rest[1..]
  }

  function Join(parts: seq<string>, sep: char): string {
    if parts == [] then ""
    else if |parts| == 1 then parts[0]
    else parts[0] + [sep] + Join(parts[1..], sep)
  }

  /** Splitting distributes over a separator. */
  lemma {:induction false} SplitConcat(a: string, b: string, sep: char)
    ensures Split(a + [sep] + b, sep) == Split(a, sep) + Split(b, sep)
  {
    if a == "" {
      assert a + [sep] + b == [sep] + b;
    } else {
      SplitConcat(a[1..], b, sep);
      var s := a + [sep] + b;
      assert s[1..] == a[1..] + [sep] + b && s[0] == a[0];
      SplitHead(s, sep);
      SplitHead(a, sep);
      hide Split;
      HeadApart(a[0], sep, Split(a[1..], sep), Split(b, sep));
    }
  }

  /** Puts one more character in front. */
  function OntoFirst(c: char, sep: char, parts: seq<string>): seq<string>
    requires parts != []
  {
    if c == sep then [""] + parts else [[c] + parts[0]] + parts[1..]
  }

  lemma SplitHead(s: string, sep: char)
    requires s != ""
    ensures Split(s, sep) == OntoFirst(s[0], sep, Split(s[1..], sep))
  {
  }

  lemma HeadApart(c: char, sep: char, parts: seq<string>, tail: seq<string>)
    requires parts != []
    ensures OntoFirst(c, sep, parts + tail) == OntoFirst(c, sep, parts) + tail
  {
    assert (parts + tail)[1..] == parts[1..] + tail;
  }

  lemma {:induction false} JoinSplit(s: string, sep: char)
    ensures Join(Split(s, sep), sep) == s
  {
    if s != "" {
      JoinSplit(s[1..], sep);
      var rest := Split(s[1..], sep);
      if s[0] == sep {
        assert ([""] + rest)[1..] == rest;
        assert s == [s[0]] + s[1..];
      } else {
        var parts := [[s[0]] + rest[0]] + rest[1..];
        assert parts[1..] == rest[1..];
        assert s == [s[0]] + s[1..];
      }
    }
  }

  lemma {:induction false} JoinAppend(a: seq<string>, b: seq<string>, sep: char)
    requires a != [] && b != []
    ensures Join(a + b, sep) == Join(a, sep) + [sep] + Join(b, sep)
  {
    if |a| == 1 {
      assert a + b == [a[0]] + b;
      assert (a + b)[1..] == b;
    } else {
      JoinAppend(a[1..], b, sep);
      assert (a + b)[1..] == a[1..] + b;
    }
  }

  /** The test the code writes as `rel == dir || strings.HasPrefix(rel, dir+"/")`. */
  predicate SameOrUnder(rel: string, dir: string) {
    rel == dir || HasPrefix(rel, dir + "/")
  }

  /** `SameOrUnder` compares whole path segments, whatever the two strings are. */
  lemma {:induction false} SameOrUnderIsSegmentPrefix(rel: string, dir: string)
    ensures SameOrUnder(rel, dir) <==> Split(dir, '/') <= Split(rel, '/')
  {
    var d, r := Split(dir, '/'), Split(rel, '/');
    if HasPrefix(rel, dir + "/") {
      var b := rel[|dir| + 1..];
      assert rel == dir + ['/'] + b;
      SplitConcat(dir, b, '/');
    }
    if d <= r {
      JoinSplit(dir, '/');
      JoinSplit(rel, '/');
      if |d| == |r| {
        assert d == r;
      } else {
        var tail := r[|d|..];
        assert r == d + tail;
        JoinAppend(d, tail, '/');
      }
    }
  }

  /** Go's `<` on strings. */
  predicate Less(a: string, b: string) {
    b != "" && (a == "" || (if a[0] != b[0] then a[0] < b[0] else Less(a[1..], b[1..])))
  }

  predicate LessEq(a: string, b: string) {
    !Less(b, a)
  }

  lemma {:induction false} LessTotal(a: string, b: string)
    ensures Less(a, b) || Less(b, a) || a == b
    ensures !(Less(a, b) && Less(b, a))
    ensures !Less(a, a)
  {
    if a != "" {
      LessTotal(a[1..], a[1..]);
      if b != "" && a[0] == b[0] {
        LessTotal(a[1..], b[1..]);
        assert a == [a[0]] + a[1..];
        assert b == [b[0]] + b[1..];
      }
    }
  }

  lemma {:induction false} LessTransitive(a: string, b: string, c: string)
    requires Less(a, b) && Less(b, c)
    ensures Less(a, c)
  {
    if a != "" && a[0] == b[0] && b[0] == c[0] {
      LessTransitive(a[1..], b[1..], c[1..]);
    }
  }
}
