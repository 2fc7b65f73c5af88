/** Where each character of a name goes when it is converted, with the letters written out. */
module CasePlaces {
  import opened CaseNames
  import opened GoStrings

  const LOWER := "abcdefghijklmnopqrstuvwxyz"
  const UPPER := "ABCDEFGHIJKLMNOPQRSTUVWXYZ"
  const DIGITS := "0123456789"

  lemma LowerAt(k: nat)
    requires k < 26
    ensures LOWER[k] as int == 'a' as int + k
  {
  }

  lemma UpperAt(k: nat)
    requires k < 26
    ensures UPPER[k] as int == 'A' as int + k
  {
  }

  lemma Letters(c: char)
    ensures IsLower(c) <==> c in LOWER
    ensures IsUpper(c) <==> c in UPPER
    ensures IsDigit(c) <==> c in DIGITS
    ensures c !in LOWER ==> ToUpper(c) == c
    ensures c !in UPPER ==> ToLower(c) == c
  {
    LowerLetters(c);
    UpperLetters(c);
    TenDigits(c);
  }

  lemma LowerLetters(c: char)
    ensures IsLower(c) <==> c in LOWER
  {
    if c in LOWER {
      var k :| 0 <= k < |LOWER| && LOWER[k] == c;
      LowerAt(k);
    }
    if IsLower(c) {
      LowerAt(c as int - 'a' as int);
    }
  }

  lemma UpperLetters(c: char)
    ensures IsUpper(c) <==> c in UPPER
  {
    if c in UPPER {
      var k :| 0 <= k < |UPPER| && UPPER[k] == c;
      UpperAt(k);
    }
    if IsUpper(c) {
      UpperAt(c as int - 'A' as int);
    }
  }

  lemma TenDigits(c: char)
    ensures IsDigit(c) <==> c in DIGITS
  {
    if IsDigit(c) {
      assert DIGITS[c as int - '0' as int] == c;
    }
  }

  lemma LetterPairs(k: nat)
    requires k < 26
    ensures ToUpper(LOWER[k]) == UPPER[k] && ToLower(UPPER[k]) == LOWER[k]
  {
    LowerAt(k);
    UpperAt(k);
  }

  /** The same letter in lower case. */
  predicate Lowered(c: char, r: char) {
    (c !in UPPER && r == c) || exists k :: 0 <= k < 26 && c == UPPER[k] && r == LOWER[k]
  }

  predicate Raised(c: char, r: char) {
    (c !in LOWER && r == c) || exists k :: 0 <= k < 26 && c == LOWER[k] && r == UPPER[k]
  }

  lemma CaseOf(c: char)
    ensures Lowered(c, ToLower(c)) && Raised(c, ToUpper(c))
  {
    Letters(c);
    hide ToLower, ToUpper;
    if c in UPPER {
      var k :| 0 <= k < 26 && UPPER[k] == c;
      LetterPairs(k);
    }
    if c in LOWER {
      var k :| 0 <= k < 26 && LOWER[k] == c;
      LetterPairs(k);
    }
  }

  // PascalToSnake.

  /** A word starts at an upper-case letter behind a lower-case letter or a digit, and at the last one
      of a run of upper-case letters that a lower-case letter follows. */
  predicate StartsAt(name: string, i: nat) {
    && 0 < i < |name| && name[i] in UPPER
    && (|| name[i - 1] in LOWER || name[i - 1] in DIGITS
        || (name[i - 1] in UPPER && i + 1 < |name| && name[i + 1] in LOWER))
  }

  /** How many characters the first i become. */
  function SnakeWidth(name: string, i: nat): nat {
    if i == 0 then 0 else SnakeWidth(name, i - 1) + if StartsAt(name, i - 1) then 2 else 1
  }

  lemma StartsIff(name: string, i: nat)
    requires i < |name|
    ensures StartsWord(name, i) <==> StartsAt(name, i)
  {
    Letters(name[i]);
    if i > 0 {
      Letters(name[i - 1]);
    }
    if i + 1 < |name| {
      Letters(name[i + 1]);
      assert name[i + 1..][0] == name[i + 1];
    }
    hide IsLower, IsUpper, IsDigit;
  }

  lemma {:induction false} SnakeRest(name: string, i: nat)
    requires i <= |name|
    ensures SnakeWidth(name, i) <= |Snake(name)| && SnakeFrom(name, i) == Snake(name)[SnakeWidth(name, i)..]
  {
    FromStart(name);
    hide SnakeFrom, Snake, ToLower, StartsWord, StartsAt;
    if i > 0 {
      SnakeRest(name, i - 1);
      SnakeFromStep(name, i - 1);
      StartsIff(name, i - 1);
      Dropped(Snake(name), SnakeWidth(name, i - 1), if StartsAt(name, i - 1) then "_" else "", ToLower(name[i - 1]), SnakeFrom(name, i));
    }
  }

  lemma Dropped(s: string, w: nat, sep: string, c: char, rest: string)
    requires w <= |s| && s[w..] == sep + ([c] + rest)
    ensures w + |sep| + 1 <= |s| && rest == s[w + |sep| + 1..]
  {
    assert s[w..][|sep|..] == [c] + rest;
    assert s[w..][|sep| + 1..] == rest;
  }

  /** Every character becomes itself in lower case, behind an underscore where it starts a word, and
      nothing else is added. */
  lemma SnakePlaces(name: string, i: nat)
    requires i < |name|
    ensures |Snake(name)| == SnakeWidth(name, |name|) && SnakeWidth(name, i) < SnakeWidth(name, i + 1) <= |Snake(name)|
    ensures Lowered(name[i], Snake(name)[SnakeWidth(name, i + 1) - 1])
    ensures StartsAt(name, i) ==> Snake(name)[SnakeWidth(name, i)] == '_'
  {
    hide SnakeFrom, Snake, Lowered, StartsWord, StartsAt;
    SnakeRest(name, |name|);
    SnakeFromEnd(name);
    SnakeRest(name, i);
    SnakeRest(name, i + 1);
    SnakeFromStep(name, i);
    StartsIff(name, i);
    CaseOf(name[i]);
  }

  // SnakeToPascal.

  /** How many of the first i characters are no underscores. */
  function PascalWidth(s: string, i: nat): nat
    requires i <= |s|
  {
    if i == 0 then 0 else PascalWidth(s, i - 1) + if s[i - 1] == '_' then 0 else 1
  }

  /** What the characters from position i on contribute. */
  function PascalFrom(s: string, i: nat): string
    requires i <= |s|
    decreases |s| - i
  {
    if i == |s| then ""
    else if s[i] == '_' then PascalFrom(s, i + 1)
    else [if i == 0 || s[i - 1] == '_' then ToUpper(s[i]) else s[i]] + PascalFrom(s, i + 1)
  }

  /** At the start of a part all parts are still to be capitalized, inside one all but that one. */
  lemma {:induction false} PascalFromParts(s: string, i: nat)
    requires i <= |s|
    ensures var parts := Split(s[i..], '_');
            PascalFrom(s, i) == if i == 0 || s[i - 1] == '_' then Pascal(parts) else parts[0] + Pascal(parts[1..])
    decreases |s| - i
  {
    if i == |s| {
      PascalEnds(s);
    } else {
      hide *;
      PascalFromParts(s, i + 1);
      PascalFromStep(s, i);
      assert s[i..][1..] == s[i + 1..] && s[i..][0] == s[i];
      SplitHead(s[i..], '_');
      OntoParts(s[i], Split(s[i + 1..], '_'));
    }
  }

  lemma PascalEnds(s: string)
    ensures s[|s|..] == "" && Split("", '_') == [""] && Pascal([""]) == "" && Pascal([""][1..]) == "" && PascalFrom(s, |s|) == ""
  {
  }

  lemma PascalFromStep(s: string, i: nat)
    requires i < |s|
    ensures s[i] == '_' ==> PascalFrom(s, i) == PascalFrom(s, i + 1)
    ensures s[i] != '_' ==>
              PascalFrom(s, i) == [if i == 0 || s[i - 1] == '_' then ToUpper(s[i]) else s[i]] + PascalFrom(s, i + 1)
  {
    hide ToUpper;
  }

  /** One more character in front of the parts. */
  lemma OntoParts(c: char, rest: seq<string>)
    requires rest != []
    ensures var p := OntoFirst(c, '_', rest);
            && p != []
            && (c == '_' ==> Pascal(p) == Pascal(rest) && p[0] + Pascal(p[1..]) == Pascal(rest))
            && (c != '_' ==>
                  && Pascal(p) == [ToUpper(c)] + (rest[0] + Pascal(rest[1..]))
                  && p[0] + Pascal(p[1..]) == [c] + (rest[0] + Pascal(rest[1..])))
  {
    if c == '_' {
      PascalCons("", rest);
      EmptyPart(Pascal(rest));
    } else {
      PascalCons([c] + rest[0], rest[1..]);
      CapitalCons(c, rest[0]);
      Associate([c], rest[0], Pascal(rest[1..]));
      Associate([ToUpper(c)], rest[0], Pascal(rest[1..]));
    }
    hide Pascal, Capital, ToUpper;
  }

  lemma PascalCons(part: string, rest: seq<string>)
    ensures Pascal([part] + rest) == Capital(part) + Pascal(rest)
    ensures ([part] + rest)[0] == part && ([part] + rest)[1..] == rest
  {
    hide Capital;
    assert ([part] + rest)[1..] == rest;
  }

  lemma CapitalCons(c: char, t: string)
    ensures Capital([c] + t) == [ToUpper(c)] + t
  {
    assert ([c] + t)[1..] == t;
  }

  lemma EmptyPart(t: string)
    ensures Capital("") + t == t && "" + t == t
  {
  }

  lemma Associate(a: string, b: string, c: string)
    ensures (a + b) + c == a + (b + c)
  {
  }

  lemma {:induction false} PascalRest(s: string, i: nat)
    requires i <= |s|
    ensures PascalWidth(s, i) <= |PascalFrom(s, 0)| && PascalFrom(s, i) == PascalFrom(s, 0)[PascalWidth(s, i)..]
  {
    if i > 0 {
      PascalRest(s, i - 1);
    }
  }

  /** Underscores go, the first character of the name and each one behind an underscore is raised,
      every other one stays, and nothing is added. */
  lemma PascalPlaces(s: string, i: nat)
    requires i < |s| && s[i] != '_'
    ensures |Pascal(Split(s, '_'))| == PascalWidth(s, |s|) && PascalWidth(s, i) < |Pascal(Split(s, '_'))|
    ensures var r := Pascal(Split(s, '_'))[PascalWidth(s, i)];
            if i == 0 || s[i - 1] == '_' then Raised(s[i], r) else r == s[i]
  {
    PascalFromParts(s, 0);
    assert s[0..] == s;
    PascalRest(s, |s|);
    PascalRest(s, i);
    CaseOf(s[i]);
    hide Pascal, Split, Raised;
  }
}
