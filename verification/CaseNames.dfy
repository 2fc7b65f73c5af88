/** Conversion between snake_case and PascalCase, and the snake_case file name rule, on ASCII. */
module CaseNames {
  import opened GoStrings

  predicate IsUpper(c: char) {
    'A' <= c <= 'Z'
  }

  predicate IsLower(c: char) {
    'a' <= c <= 'z'
  }

  function ToLower(c: char): char {
    if IsUpper(c) then (c as int + 32) as char else c
  }

  function ToUpper(c: char): char {
    if IsLower(c) then (c as int - 32) as char else c
  }

  // PascalToSnake.

  /** Whether a word starts at c, between prev and what follows. */
  predicate Boundary(prev: char, c: char, rest: string) {
    IsUpper(c) && (IsLower(prev) || IsDigit(prev) || (IsUpper(prev) && rest != "" && IsLower(rest[0])))
  }

  function SnakeAfter(prev: char, s: string): string
    decreases s
  {
    if s == "" then ""
    else (if Boundary(prev, s[0], s[1..]) then "_" else "") + [ToLower(s[0])] + SnakeAfter(s[0], s[1..])
  }

  function Snake(s: string): string {
    if s == "" then "" else [ToLower(s[0])] + SnakeAfter(s[0], s[1..])
  }

  /** What the characters from position i on contribute. */
  function SnakeFrom(name: string, i: nat): string
    requires i <= |name|
  {
    if i == 0 then Snake(name) else SnakeAfter(name[i - 1], name[i..])
  }

  predicate StartsWord(name: string, i: nat)
    requires i < |name|
  {
    i > 0 && Boundary(name[i - 1], name[i], name[i + 1..])
  }

  lemma SnakeFromStep(name: string, i: nat)
    requires i < |name|
    ensures SnakeFrom(name, i) == (if StartsWord(name, i) then "_" else "") + ([ToLower(name[i])] + SnakeFrom(name, i + 1))
  {
    assert name[i..][1..] == name[i + 1..];
  }

  lemma SnakeFromEnd(name: string)
    ensures SnakeFrom(name, |name|) == ""
  {
  }

  /** PascalToSnake. */
  method PascalToSnake(name: string) returns (result: string)
    ensures result == Snake(name)
  {
    FromStart(name);
    hide SnakeFrom, Snake;
    result := "";
    for i := 0 to |name|
      invariant result + SnakeFrom(name, i) == Snake(name)
    {
      var r := name[i];
      ghost var before, sep := result, if StartsWord(name, i) then "_" else "";
      SnakeFromStep(name, i);
      if i > 0 && IsUpper(r) {
        var prev := name[i - 1];
        var nextLower := i + 1 < |name| && IsLower(name[i + 1]);
        if IsLower(prev) || IsDigit(prev) || (IsUpper(prev) && nextLower) {
          result := result + "_";
        }
      }
      assert result == before + sep;
      hide StartsWord;
      result := result + [ToLower(r)];
      Regroup3(before, sep, [ToLower(r)], SnakeFrom(name, i + 1));
    }
    SnakeFromEnd(name);
  }

  lemma Regroup3(a: string, b: string, c: string, d: string)
    ensures a + (b + (c + d)) == ((a + b) + c) + d
  {
  }

  lemma FromStart(name: string)
    ensures SnakeFrom(name, 0) == Snake(name)
  {
  }

  predicate NoUpper(s: string) {
    forall i :: 0 <= i < |s| ==> !IsUpper(s[i])
  }

  lemma {:induction false} SnakeAfterNoUpper(prev: char, s: string)
    ensures NoUpper(SnakeAfter(prev, s))
    ensures NoUpper(s) ==> SnakeAfter(prev, s) == s
    decreases s
  {
    if s != "" {
      SnakeAfterNoUpper(s[0], s[1..]);
    }
  }

  lemma SnakeNoUpper(s: string)
    ensures NoUpper(Snake(s))
    ensures NoUpper(s) ==> Snake(s) == s
  {
    if s != "" {
      SnakeAfterNoUpper(s[0], s[1..]);
    }
  }

  lemma SnakeIdempotent(s: string)
    ensures Snake(Snake(s)) == Snake(s)
  {
    SnakeNoUpper(s);
    SnakeNoUpper(Snake(s));
  }

  // SnakeToPascal.

  function Capital(part: string): string {
    if part == "" then "" else [ToUpper(part[0])] + part[1..]
  }

  function Pascal(parts: seq<string>): string {
    if parts == [] then "" else Capital(parts[0]) + Pascal(parts[1..])
  }

  lemma PascalStep(parts: seq<string>, i: nat)
    requires i < |parts|
    ensures Pascal(parts[i..]) == Capital(parts[i]) + Pascal(parts[i + 1..])
  {
    assert parts[i..][1..] == parts[i + 1..];
  }

  lemma PascalNothing()
    ensures Pascal([]) == ""
  {
  }

  /** SnakeToPascal. */
  method SnakeToPascal(s: string) returns (b: string)
    ensures b == Pascal(Split(s, '_'))
  {
    hide Split, Pascal;
    var parts := Split(s, '_');
    b := "";
    assert parts[0..] == parts;
    PascalNothing();
    assert parts[|parts|..] == [];
    for i := 0 to |parts|
      invariant b + Pascal(parts[i..]) == Pascal(parts)
    {
      var part := parts[i];
      PascalStep(parts, i);
      if part == "" {
        continue;
      }
      b := b + [ToUpper(part[0])];
      b := b + part[1..];
    }
  }

  // The round trip.

  /** A lower-case letter, then lower-case letters and digits. */
  predicate IsWord(w: string) {
    w != "" && IsLower(w[0]) && forall i :: 0 <= i < |w| ==> IsLower(w[i]) || IsDigit(w[i])
  }

  predicate AllWords(ws: seq<string>) {
    forall i :: 0 <= i < |ws| ==> IsWord(ws[i])
  }

  /** Whether the underscore between two adjacent words survives: a one-letter word runs into the
      next unless that has a lower-case second letter. */
  predicate Gap(a: string, b: string) {
    |a| >= 2 || (|b| >= 2 && IsLower(b[1]))
  }

  predicate AllGaps(ws: seq<string>) {
    forall i :: 0 <= i < |ws| - 1 ==> Gap(ws[i], ws[i + 1])
  }

  function Glued(a: string, ws: seq<string>): string
    decreases ws
  {
    if ws == [] then "" else (if Gap(a, ws[0]) then "_" else "") + ws[0] + Glued(ws[0], ws[1..])
  }

  function Joined(ws: seq<string>): string {
    if ws == [] then "" else "_" + ws[0] + Joined(ws[1..])
  }

  lemma SnakeAfterStep(prev: char, s: string)
    requires s != ""
    ensures SnakeAfter(prev, s) == (if Boundary(prev, s[0], s[1..]) then "_" else "") + ([ToLower(s[0])] + SnakeAfter(s[0], s[1..]))
  {
  }

  lemma Cons(w: string, x: string)
    requires w != ""
    ensures [w[0]] + (w[1..] + x) == w + x
    ensures (w + x)[0] == w[0] && (w + x)[1..] == w[1..] + x
  {
    assert w == [w[0]] + w[1..];
  }

  lemma NoPrefix(x: string)
    ensures "" + x == x
  {
  }

  lemma {:induction false} SnakeAfterWord(prev: char, w: string, rest: string)
    requires forall i :: 0 <= i < |w| ==> IsLower(w[i]) || IsDigit(w[i])
    ensures SnakeAfter(prev, w + rest) == w + SnakeAfter(if w == "" then prev else w[|w| - 1], rest)
    decreases w
  {
    hide SnakeAfter;
    if w == "" {
      NoPrefix(rest);
      NoPrefix(SnakeAfter(prev, rest));
    } else {
      var last := SnakeAfter(w[|w| - 1], rest);
      SnakeAfterWord(w[0], w[1..], rest);
      Cons(w, rest);
      Cons(w, last);
      SnakeAfterStep(prev, w + rest);
      NoPrefix([ToLower(w[0])] + SnakeAfter(w[0], w[1..] + rest));
    }
  }

  lemma PascalStart(ws: seq<string>)
    requires AllWords(ws) && ws != []
    ensures Pascal(ws) != "" && IsUpper(Pascal(ws)[0])
  {
  }

  /** The last character of a capitalized word. */
  function LastOf(w: string): char
    requires w != ""
  {
    if |w| == 1 then ToUpper(w[0]) else w[|w| - 1]
  }

  /** A capitalized word comes back in lower case. */
  lemma SnakeOfCapital(w: string, rest: string)
    requires IsWord(w)
    ensures var t := Capital(w) + rest;
            && t != "" && t[0] == ToUpper(w[0]) && t[1..] == w[1..] + rest
            && IsUpper(t[0]) && [ToLower(t[0])] + SnakeAfter(t[0], t[1..]) == w + SnakeAfter(LastOf(w), rest)
  {
    var t := Capital(w) + rest;
    var c := ToUpper(w[0]);
    CapitalShape(w, rest);
    SnakeAfterWord(c, w[1..], rest);
    assert (if w[1..] == "" then c else w[1..][|w[1..]| - 1]) == LastOf(w);
    hide *;
    Cons(w, SnakeAfter(LastOf(w), rest));
  }

  lemma CapitalShape(w: string, rest: string)
    requires IsWord(w)
    ensures var t := Capital(w) + rest;
            t != "" && t[0] == ToUpper(w[0]) && IsUpper(t[0]) && ToLower(t[0]) == w[0] && t[1..] == w[1..] + rest
  {
    assert Capital(w) + rest == [ToUpper(w[0])] + (w[1..] + rest);
  }

  lemma {:induction false} SnakeOfPascal(a: string, ws: seq<string>)
    requires IsWord(a) && AllWords(ws)
    ensures SnakeAfter(LastOf(a), Pascal(ws)) == Glued(a, ws)
    decreases ws
  {
    if ws != [] {
      var w, more := ws[0], ws[1..];
      var t := Capital(w) + Pascal(more);
      SnakeOfCapital(w, Pascal(more));
      SnakeOfPascal(w, more);
      BoundaryIsGap(a, ws);
      SnakeAfterStep(LastOf(a), t);
      assert Pascal(ws) == t;
      var sep := if Gap(a, w) then "_" else "";
      assert Glued(a, ws) == sep + w + Glued(w, more);
      hide *;
      Regroup(sep, w, Glued(w, more));
    }
  }

  lemma Regroup(a: string, b: string, c: string)
    ensures a + (b + c) == a + b + c
  {
  }

  lemma BoundaryIsGap(a: string, ws: seq<string>)
    requires IsWord(a) && AllWords(ws) && ws != []
    ensures var t := Capital(ws[0]) + Pascal(ws[1..]);
            Boundary(LastOf(a), t[0], t[1..]) <==> Gap(a, ws[0])
  {
    var w, more := ws[0], ws[1..];
    CapitalShape(w, Pascal(more));
    if more != [] {
      PascalStart(more);
    } else {
      PascalNothing();
    }
    hide Pascal, Capital;
    var tail := w[1..] + Pascal(more);
    assert |w| >= 2 ==> tail[0] == w[1];
    assert |w| < 2 ==> tail == Pascal(more);
    LastOfWord(a);
  }

  lemma LastOfWord(a: string)
    requires IsWord(a)
    ensures if |a| == 1 then IsUpper(LastOf(a)) else IsLower(LastOf(a)) || IsDigit(LastOf(a))
  {
  }

  lemma {:induction false} GluedIsJoinedIff(a: string, ws: seq<string>)
    ensures |Glued(a, ws)| <= |Joined(ws)|
    ensures Glued(a, ws) == Joined(ws) <==> AllGaps([a] + ws)
    decreases ws
  {
    if ws == [] {
    } else {
      var w, more := ws[0], ws[1..];
      GluedIsJoinedIff(w, more);
      assert [w] + more == ws;
      assert AllGaps([a] + ws) <==> Gap(a, w) && AllGaps(ws) by {
        if Gap(a, w) && AllGaps(ws) {
          forall i | 0 <= i < |[a] + ws| - 1
            ensures Gap(([a] + ws)[i], ([a] + ws)[i + 1])
          {
            if i > 0 { assert Gap(ws[i - 1], ws[i - 1 + 1]); }
          }
        }
        if AllGaps([a] + ws) {
          assert Gap(([a] + ws)[0], ([a] + ws)[0 + 1]);
          forall i | 0 <= i < |ws| - 1
            ensures Gap(ws[i], ws[i + 1])
          {
            assert Gap(([a] + ws)[i + 1], ([a] + ws)[i + 1 + 1]);
          }
        }
      }
      if Gap(a, w) {
        var g, j := Glued(w, more), Joined(more);
        assert ("_" + w + g)[1 + |w|..] == g && ("_" + w + j)[1 + |w|..] == j;
      }
    }
  }

  lemma {:induction false} JoinIsJoined(ws: seq<string>)
    requires ws != []
    ensures Join(ws, '_') == ws[0] + Joined(ws[1..])
  {
    if |ws| > 1 {
      JoinIsJoined(ws[1..]);
    }
  }

  /** For names made of such words the conversions are inverse exactly when every underscore
      survives. */
  lemma RoundTripIff(s: string)
    requires AllWords(Split(s, '_'))
    ensures Snake(Pascal(Split(s, '_'))) == s <==> AllGaps(Split(s, '_'))
  {
    var ws := Split(s, '_');
    var a, more := ws[0], ws[1..];
    JoinSplit(s, '_');
    JoinIsJoined(ws);
    SnakeOfPascal(a, more);
    GluedIsJoinedIff(a, more);
    assert [a] + more == ws;
    SnakeOfCapital(a, Pascal(more));
    assert Pascal(ws) == Capital(a) + Pascal(more);
    hide Pascal, Capital, Split, Join, Joined, Glued, SnakeAfter, AllGaps, AllWords;
    assert Snake(Pascal(ws)) == a + Glued(a, more);
    assert (a + Glued(a, more))[|a|..] == Glued(a, more);
    assert (a + Joined(more))[|a|..] == Joined(more);
  }

  /** In particular when all words but the last have two letters or more. */
  lemma LongWordsRoundTrip(s: string)
    requires AllWords(Split(s, '_'))
    requires forall i :: 0 <= i < |Split(s, '_')| - 1 ==> |Split(s, '_')[i]| >= 2
    ensures Snake(Pascal(Split(s, '_'))) == s
  {
    RoundTripIff(s);
  }
}
