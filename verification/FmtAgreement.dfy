/** Package fmt and the scanner read a format alike exactly where FmtReference says so. */
module FmtAgreement {
  import opened FmtDirectives
  import opened FmtReference
  import opened GoStrings
  import opened Options

  // An index.

  lemma {:induction false} CloseAfterDigits(s: string, k: nat)
    requires k < |s| && s[k] == ']' && forall i :: 0 <= i < k ==> s[i] != ']'
    ensures CloseAt(s) == k
  {
    if k > 0 {
      CloseAfterDigits(s[1..], k - 1);
    }
  }

  lemma {:induction false} DigitsInFront(s: string)
    ensures forall i :: 0 <= i < DigitRun(s) ==> IsDigit(s[i])
    ensures DigitRun(s) < |s| ==> !IsDigit(s[DigitRun(s)])
  {
    if s != "" && IsDigit(s[0]) {
      DigitsInFront(s[1..]);
    }
  }

  lemma {:induction false} DigitRunIs(s: string, k: nat)
    requires k <= |s| && (forall i :: 0 <= i < k ==> IsDigit(s[i])) && (k < |s| ==> !IsDigit(s[k]))
    ensures DigitRun(s) == k
  {
    if k > 0 {
      DigitRunIs(s[1..], k - 1);
    }
  }

  lemma {:induction false} CloseIs(s: string)
    ensures CloseAt(s) < |s| ==> s[CloseAt(s)] == ']'
    ensures forall i :: 0 <= i < CloseAt(s) ==> s[i] != ']'
  {
    if s != "" && s[0] != ']' {
      CloseIs(s[1..]);
    }
  }

  /** An index of the scanner is one for package fmt, unless it is too large. */
  lemma IndexIsBracket(s: string)
    requires ParseIndex(s).Some?
    ensures var ix := ParseIndex(s).value;
            ParseBracket(s) == if TooLarge(ix.arg + 1) then Bracket(0, ix.used, false) else Bracket(ix.arg + 1, ix.used, true)
  {
    hide DecimalValue, TooLarge, DigitRun, CloseAt;
    var k := DigitRun(s[1..]);
    DigitsInFront(s[1..]);
    assert forall i :: 1 <= i < k + 1 ==> s[i] == s[1..][i - 1];
    CloseAfterDigits(s, k + 1);
    var inner := s[1..k + 1];
    assert inner == s[1..][..k];
    DigitRunIs(inner, k);
    assert inner[..k] == inner;
  }

  /** And the other way round. */
  lemma BracketIsIndex(s: string)
    requires s != "" && s[0] == '[' && ParseBracket(s).ok && ParseBracket(s).number >= 1
    ensures ParseIndex(s).Some?
  {
    hide DecimalValue, TooLarge, DigitRun, CloseAt;
    var i := CloseAt(s);
    CloseIs(s);
    var inner := s[1..i];
    DigitsInFront(inner);
    assert DigitRun(inner) == |inner|;
    assert forall j :: 0 <= j < i - 1 ==> s[1..][j] == inner[j];
    assert s[1..][i - 1] == ']';
    DigitRunIs(s[1..], i - 1);
    assert inner[..i - 1] == inner == s[1..][..i - 1];
  }

  lemma IndexRead(s: string, next: nat, n: nat)
    ensures s == "" || s[0] != '[' ==> ParseIndex(s) == None && ReadIndex(s, next, n) == State(next, true, false, 0)
    ensures match ParseIndex(s)
            case Some(ix) => if Fits(ix, n) then ReadIndex(s, next, n) == State(ix.arg, true, true, ix.used) else !ReadIndex(s, next, n).good
            case None => s != "" && s[0] == '[' ==> !ReadIndex(s, next, n).good
  {
    hide ParseBracket;
    if s != "" && s[0] == '[' {
      if ParseIndex(s).Some? {
        IndexIsBracket(s);
      } else if ParseBracket(s).ok && ParseBracket(s).number >= 1 {
        BracketIsIndex(s);
      }
    }
  }

  // A width or precision.

  lemma NumberRead(s: string)
    ensures s == "" || !IsDigit(s[0]) ==> ParseNumber(s) == Number(0, false, 0)
    ensures s != "" && IsDigit(s[0]) ==> ParseNumber(s).used >= 1 && (ParseNumber(s).present || ParseNumber(s).used == |s|)
  {
    assert s[..0] == "";
  }

  /** Without an index in front. */
  lemma PlainSizeRead(s: string, next: nat, n: nat, width: bool)
    requires s == "" || s[0] != '['
    ensures var z, r := SizeAt(s), ReadSize(s, next, n, width);
            if Plain(z) then r == State(RefSize(z, next, n), true, false, SizeUsed(z)) else r.used == |s|
  {
    hide DecimalValue, TooLarge, ReadIndex, ParseIndex;
    IndexRead(s, next, n);
    NumberRead(s);
    assert s[0..] == s;
  }

  /** With a good index in front. */
  lemma IndexedSizeRead(s: string, next: nat, n: nat, width: bool)
    requires ParseIndex(s).Some? && Fits(ParseIndex(s).value, n)
    ensures var ix, r := ParseIndex(s).value, ReadSize(s, next, n, width);
            var t := s[ix.used..];
            if SizeAt(s).IndexedText? then r == State(ix.arg + 1, true, false, ix.used + 1)
            else if t != "" && IsDigit(t[0]) then (if width then !r.good || r.used == |s| else r.used > ix.used)
            else r == State(ix.arg, true, true, ix.used)
  {
    hide ParseNumber, ReadIndex, ParseIndex;
    IndexRead(s, next, n);
    NumberRead(s[ParseIndex(s).value.used..]);
  }

  /** With a bad one. */
  lemma BadSizeRead(s: string, next: nat, n: nat, width: bool)
    requires s != "" && s[0] == '[' && (ParseIndex(s).Some? ==> !Fits(ParseIndex(s).value, n))
    ensures !ReadSize(s, next, n, width).good
  {
    hide ParseNumber, ReadIndex, ParseIndex;
    IndexRead(s, next, n);
  }

  lemma StartsWithIndex(s: string)
    requires ParseIndex(s).Some?
    ensures s != "" && s[0] == '['
  {
  }

  // What follows the width.

  lemma LastRead(s: string, next: nat, n: nat)
    ensures var r, last := ReadIndex(s, next, n), ParseIndex(s);
            var k := if last.Some? then last.value.used else 0;
            k < |s| ==>
              ((r.good && r.used == k) <==> (s[k] == '[' ==> last.Some?) && (last.Some? ==> Fits(last.value, n)))
              && (r.good && r.used == k ==> r.next == if last.Some? then last.value.arg else next)
  {
    hide ParseIndex, ReadIndex;
    IndexRead(s, next, n);
  }

  /** Read alike, and what is next then. */
  ghost predicate TailAgrees(s: string, next: nat, n: nat, r: State) {
    var t := TailOf(s);
    t.used < |s| ==>
      ((r.good && r.used == t.used) <==> TailReadable(t, s[t.used]) && TailInRange(t, n))
      && (r.good && r.used == t.used ==> r.next == RefTail(t, next, n))
  }

  lemma TailWithoutPrecision(s: string, st: State, n: nat)
    requires st.good && !st.afterIndex && (s == "" || s[0] != '.')
    ensures TailAgrees(s, st.next, n, ReadTail(s, st, n))
  {
    hide ParseIndex, ReadIndex;
    LastRead(s, st.next, n);
    assert s[0..] == s;
  }

  /** The index or verb behind a precision that was read alike. */
  lemma TailAfterPrecision(s: string, st: State, n: nat, z: SizeText)
    requires st.good && !st.afterIndex && s != "" && s[0] == '.' && z == SizeAt(s[1..])
    requires var q := ReadSize(s[1..], st.next, n, false);
             q == State(RefSize(z, st.next, n), true, false, SizeUsed(z))
    requires Plain(z) && SizeFits(z, n) && (z.NoSize? ==> ParseIndex(s[1..]).None?)
    ensures TailAgrees(s, st.next, n, ReadTail(s, st, n))
  {
    hide ParseIndex, ReadIndex, ReadSize, SizeAt;
    var u := s[1 + SizeUsed(z)..];
    assert s[1..][SizeUsed(z)..] == u;
    LastRead(u, RefSize(z, st.next, n), n);
    assert z.NoSize? ==> u == s[1..];
  }

  lemma TailRead(s: string, st: State, n: nat)
    requires st.good && !st.afterIndex
    ensures TailAgrees(s, st.next, n, ReadTail(s, st, n))
  {
    if s == "" || s[0] != '.' {
      TailWithoutPrecision(s, st, n);
    } else {
      var u := s[1..];
      hide ReadIndex, ReadSize, ParseIndex, Fits, TooLarge, TailAgrees;
      if u == "" || u[0] != '[' {
        PlainSizeRead(u, st.next, n, false);
        IndexRead(u, st.next, n);
        if Plain(SizeAt(u)) {
          TailAfterPrecision(s, st, n, SizeAt(u));
        } else {
          TailTooLarge(s, st, n);
        }
      } else {
        TailWithIndex(s, st, n);
      }
    }
  }

  lemma TailTooLarge(s: string, st: State, n: nat)
    requires s != "" && s[0] == '.' && !Plain(SizeAt(s[1..])) && ReadSize(s[1..], st.next, n, false).used == |s| - 1
    ensures TailAgrees(s, st.next, n, ReadTail(s, st, n))
  {
    hide ReadIndex, ReadSize, ParseIndex, SizeAt, TooLarge;
  }

  /** An index right behind the ".". */
  lemma TailWithIndex(s: string, st: State, n: nat)
    requires st.good && !st.afterIndex && |s| > 1 && s[0] == '.' && s[1] == '['
    ensures TailAgrees(s, st.next, n, ReadTail(s, st, n))
  {
    hide ReadIndex, ReadSize, ParseIndex, Fits, TooLarge;
    var u := s[1..];
    if ParseIndex(u).None? || !Fits(ParseIndex(u).value, n) {
      BadSizeRead(u, st.next, n, false);
      BadTailIndex(s, n);
    } else {
      IndexedSizeRead(u, st.next, n, false);
      if SizeAt(u).IndexedText? {
        hide TailAgrees;
        TailAfterPrecision(s, st, n, SizeAt(u));
      } else {
        var ix := ParseIndex(u).value;
        assert u[0..] == u && s[1..][ix.used..] == s[1 + ix.used..];
      }
    }
  }

  lemma BadTailIndex(s: string, n: nat)
    requires |s| > 1 && s[0] == '.' && s[1] == '[' && (ParseIndex(s[1..]).Some? ==> !Fits(ParseIndex(s[1..]).value, n))
    ensures var t := TailOf(s); t.used < |s| ==> !(TailReadable(t, s[t.used]) && TailInRange(t, n))
  {
    hide ParseIndex, Fits, TooLarge;
    assert s[1..][0..] == s[1..];
    assert ParseIndex(s[1..]).None? ==> DigitRun(s[1..]) == 0;
  }

  // A whole directive.

  /** Package fmt finds the verb where the scanner does, with all indexes good, exactly when the
      directive is readable and its indexes are in range; then this is the next argument. */
  ghost predicate DirectiveAgrees(t: string, next: nat, n: nat) {
    var p, r := PartsOf(t), ReadDirective(t, next, n);
    p.verbAt < |t| ==>
      ((r.good && r.used == p.verbAt) <==> Readable(p, t[p.verbAt]) && InRange(p, n))
      && (r.good && r.used == p.verbAt ==> r.next == RefNext(p, next, n))
  }

  /** No index right after "%": flags, then the text u. */
  lemma NoLeadParts(t: string)
    requires ParseIndex(t).None?
    ensures var f := FlagRun(t);
            var u := t[f..];
            PartsOf(t) == Parts(None, f, SizeAt(u), TailOf(u[SizeUsed(SizeAt(u))..]), f + SizeUsed(SizeAt(u)) + TailOf(u[SizeUsed(SizeAt(u))..]).used)
  {
    hide ParseIndex, SizeAt, TailOf, FlagRun;
    assert t[0..] == t;
  }

  lemma NoLeadPlain(t: string, next: nat, n: nat)
    requires ParseIndex(t).None? && (t[FlagRun(t)..] == "" || t[FlagRun(t)..][0] != '[')
    ensures DirectiveAgrees(t, next, n)
  {
    var u := t[FlagRun(t)..];
    IndexRead(u, next, n);
    PlainSizeRead(u, next, n, true);
    hide *;
    NoLeadParts(t);
    if Plain(SizeAt(u)) {
      NoIndexAhead(u);
      var w := ReadSize(u, next, n, true);
      TailRead(u[w.used..], w, n);
      PlainComposes(t, next, n, w);
    } else {
      TooLargeComposes(t, next, n);
    }
  }

  /** A width that was read alike, then the rest. */
  lemma PlainComposes(t: string, next: nat, n: nat, w: State)
    requires var f := FlagRun(t);
             var z, tail := SizeAt(t[f..]), TailOf(t[f..][SizeUsed(SizeAt(t[f..]))..]);
             && PartsOf(t) == Parts(None, f, z, tail, f + SizeUsed(z) + tail.used)
             && w == ReadSize(t[f..], next, n, true) && w == State(RefSize(z, next, n), true, false, SizeUsed(z))
             && Plain(z) && SizeFits(z, n) && (z.NoSize? && tail.precision.None? ==> tail.last.None?)
             && TailAgrees(t[f..][SizeUsed(z)..], w.next, n, ReadTail(t[f..][SizeUsed(z)..], w, n))
    ensures DirectiveAgrees(t, next, n)
  {
    hide ParseIndex, SizeAt, ReadSize, ReadTail, FlagRun, TooLarge, PartsOf, TailOf, RefSize, RefTail, TailInRange,
        Plain, SizeFits, TailReadable, ReadDirective, Readable, InRange, RefNext;
    var f := FlagRun(t);
    var z := SizeAt(t[f..]);
    var s := t[f..][SizeUsed(z)..];
    Staged(t, next, n);
    Nested(t, f, SizeUsed(z), TailOf(s).used);
    var p := PartsOf(t);
    if p.verbAt < |t| {
      LeadlessParts(p, t[p.verbAt], next, n);
      assert s[TailOf(s).used] == t[p.verbAt];
    }
  }

  lemma LeadlessParts(p: Parts, verb: char, next: nat, n: nat)
    requires p.lead.None? && Plain(p.width) && SizeFits(p.width, n)
    requires p.width.NoSize? && p.tail.precision.None? ==> p.tail.last.None?
    ensures Readable(p, verb) <==> TailReadable(p.tail, verb)
    ensures InRange(p, n) <==> TailInRange(p.tail, n)
    ensures RefNext(p, next, n) == RefTail(p.tail, RefSize(p.width, next, n), n)
  {
    hide TailReadable, TailInRange, RefTail, RefSize, Plain, SizeFits;
  }

  lemma Nested(t: string, a: nat, b: nat, c: nat)
    requires a + b <= |t|
    ensures var s := t[a..][b..]; |s| == |t| - a - b && (c < |s| ==> s[c] == t[a + b + c])
  {
  }

  lemma TooLargeComposes(t: string, next: nat, n: nat)
    requires var f := FlagRun(t);
             var z, tail := SizeAt(t[f..]), TailOf(t[f..][SizeUsed(SizeAt(t[f..]))..]);
             && PartsOf(t) == Parts(None, f, z, tail, f + SizeUsed(z) + tail.used)
             && !Plain(z) && ReadSize(t[f..], next, n, true).used == |t[f..]|
    ensures DirectiveAgrees(t, next, n)
  {
    Staged(t, next, n);
    hide ParseIndex, SizeAt, ReadSize, FlagRun, TooLarge, PartsOf, TailOf, ReadTail, TailReadable, TailInRange, ReadDirective;
  }

  /** Nothing in front of the verb: then there is no index either. */
  lemma NoIndexAhead(u: string)
    requires ParseIndex(u).None?
    ensures var t := TailOf(u[SizeUsed(SizeAt(u))..]); SizeAt(u).NoSize? && t.precision.None? ==> t.last.None?
  {
    hide ParseIndex;
    assert u[0..] == u;
  }

  lemma BadStaysBad(s: string, st: State, n: nat)
    requires !st.good
    ensures !ReadTail(s, st, n).good
  {
    hide ReadSize, ReadIndex;
  }

  /** A bad index behind flags, or none that the scanner can read. */
  lemma NoLeadBad(t: string, next: nat, n: nat)
    requires ParseIndex(t).None? && t[FlagRun(t)..] != "" && t[FlagRun(t)..][0] == '['
    requires var u := t[FlagRun(t)..]; ParseIndex(u).Some? ==> !Fits(ParseIndex(u).value, n)
    ensures DirectiveAgrees(t, next, n)
  {
    hide *;
    NoLeadParts(t);
    ReadBad(t, next, n);
    PartsBad(t, n);
    NeitherAgrees(t, next, n);
  }

  lemma ReadBad(t: string, next: nat, n: nat)
    requires var u := t[FlagRun(t)..];
             u != "" && u[0] == '[' && (ParseIndex(u).Some? ==> !Fits(ParseIndex(u).value, n))
    ensures !ReadDirective(t, next, n).good
  {
    var u := t[FlagRun(t)..];
    hide *;
    BadSizeRead(u, next, n, true);
    Staged(t, next, n);
    var w := ReadSize(u, next, n, true);
    BadStaysBad(u[w.used..], w, n);
  }

  lemma PartsBad(t: string, n: nat)
    requires var f := FlagRun(t);
             var u := t[f..];
             && u != "" && u[0] == '[' && (ParseIndex(u).Some? ==> !Fits(ParseIndex(u).value, n))
             && PartsOf(t) == Parts(None, f, SizeAt(u), TailOf(u[SizeUsed(SizeAt(u))..]), f + SizeUsed(SizeAt(u)) + TailOf(u[SizeUsed(SizeAt(u))..]).used)
    ensures var p := PartsOf(t); p.verbAt < |t| ==> !(Readable(p, t[p.verbAt]) && InRange(p, n))
  {
    var u := t[FlagRun(t)..];
    BracketSize(u);
    hide PartsOf, FlagRun, ParseIndex, SizeAt, Fits, TailOf;
  }

  /** Text that starts with "[": an index with a "*", an index that is the last, or nothing. */
  lemma BracketSize(u: string)
    requires u != "" && u[0] == '['
    ensures var z := SizeAt(u);
            && (z.IndexedText? ==> ParseIndex(u) == Some(z.index))
            && (!z.IndexedText? ==> z == NoSize && SizeUsed(z) == 0 && u[0..] == u)
            && (!z.IndexedText? ==> TailOf(u) == Tail(None, ParseIndex(u), if ParseIndex(u).Some? then ParseIndex(u).value.used else 0))
  {
    hide DecimalValue;
    assert u[0..] == u && DigitRun(u) == 0;
    hide DigitRun;
  }

  lemma NeitherAgrees(t: string, next: nat, n: nat)
    requires !ReadDirective(t, next, n).good
    requires var p := PartsOf(t); p.verbAt < |t| ==> !(Readable(p, t[p.verbAt]) && InRange(p, n))
    ensures DirectiveAgrees(t, next, n)
  {
    hide ReadDirective, PartsOf, Readable, InRange;
  }

  lemma NoLeadIndexed(t: string, next: nat, n: nat)
    requires var u := t[FlagRun(t)..]; ParseIndex(t).None? && ParseIndex(u).Some? && Fits(ParseIndex(u).value, n)
    ensures DirectiveAgrees(t, next, n)
  {
    hide *;
    NoLeadParts(t);
    if SizeAt(t[FlagRun(t)..]).IndexedText? {
      NoLeadIndexedStar(t, next, n);
    } else {
      NotIndexedIs(t[FlagRun(t)..]);
      IndexBeforeVerb(t, next, n);
    }
  }

  lemma NoLeadIndexedStar(t: string, next: nat, n: nat)
    requires var u := t[FlagRun(t)..]; ParseIndex(t).None? && ParseIndex(u).Some? && Fits(ParseIndex(u).value, n) && SizeAt(u).IndexedText?
    ensures DirectiveAgrees(t, next, n)
  {
    hide *;
    var u := t[FlagRun(t)..];
    NoLeadParts(t);
    IndexedSizeRead(u, next, n, true);
    IndexedIs(u);
    RefOfIndexed(SizeAt(u), next, n);
    IndexedNotNone(SizeAt(u));
    var w := ReadSize(u, next, n, true);
    TailRead(u[w.used..], w, n);
    PlainComposes(t, next, n, w);
  }

  lemma IndexedNotNone(z: SizeText)
    requires z.IndexedText?
    ensures !z.NoSize?
  {
  }

  lemma IndexedIs(u: string)
    requires SizeAt(u).IndexedText?
    ensures ParseIndex(u) == Some(SizeAt(u).index) && SizeUsed(SizeAt(u)) == SizeAt(u).index.used + 1
  {
    hide ParseIndex, DecimalValue;
  }

  lemma RefOfIndexed(z: SizeText, next: nat, n: nat)
    requires z.IndexedText?
    ensures RefSize(z, next, n) == z.index.arg + 1 && Plain(z) && (SizeFits(z, n) <==> Fits(z.index, n))
  {
  }

  lemma NotIndexedIs(u: string)
    requires ParseIndex(u).Some? && !SizeAt(u).IndexedText?
    ensures SizeAt(u) == NoSize && SizeUsed(SizeAt(u)) == 0 && u[0..] == u && u != "" && u[0] == '['
    ensures TailOf(u) == Tail(None, ParseIndex(u), ParseIndex(u).value.used)
  {
    hide DecimalValue, DigitRun;
    assert u[0..] == u;
  }

  /** The stages put together. */
  lemma Staged(t: string, next: nat, n: nat)
    ensures var f := FlagRun(t);
            var w := ReadSize(t[f..], next, n, true);
            var x := ReadTail(t[f..][w.used..], w, n);
            ReadDirective(t, next, n) == State(x.next, x.good, x.afterIndex, f + w.used + x.used)
  {
    SameFlags(t);
    hide FlagRun, FlagsRead, ReadSize, ReadTail;
  }

  /** Behind an index a "." is an error, and there is no second index. */
  lemma TailBehindIndex(s: string, st: State, n: nat)
    requires st.afterIndex
    ensures if s != "" && s[0] == '.' then !ReadTail(s, st, n).good else ReadTail(s, st, n) == State(st.next, st.good, true, 0)
  {
    hide ReadSize, ReadIndex;
  }

  /** What is read when a good index is followed by the verb, or by a digit or ".". */
  lemma ReadBehindIndex(t: string, next: nat, n: nat)
    requires var f := FlagRun(t);
             var u := t[f..];
             && ParseIndex(u).Some? && Fits(ParseIndex(u).value, n) && !SizeAt(u).IndexedText?
    ensures var f := FlagRun(t);
            var ix, r := ParseIndex(t[f..]).value, ReadDirective(t, next, n);
            var v := t[f..][ix.used..];
            if v != "" && (IsDigit(v[0]) || v[0] == '.') then !r.good || r.used == |t|
            else r.good && r.used == f + ix.used && r.next == ix.arg
  {
    var u := t[FlagRun(t)..];
    hide *;
    IndexedSizeRead(u, next, n, true);
    Staged(t, next, n);
    var w := ReadSize(u, next, n, true);
    if !w.good {
      BadStaysBad(u[w.used..], w, n);
    } else if w.afterIndex {
      TailBehindIndex(u[w.used..], w, n);
    }
  }

  /** An index behind flags and directly in front of the verb, or of a digit or ".". */
  lemma IndexBeforeVerb(t: string, next: nat, n: nat)
    requires var f := FlagRun(t);
             var u := t[f..];
             && ParseIndex(u).Some? && Fits(ParseIndex(u).value, n) && !SizeAt(u).IndexedText?
             && var ix := ParseIndex(u).value;
                PartsOf(t) == Parts(None, f, NoSize, Tail(None, Some(ix), ix.used), f + ix.used)
    ensures DirectiveAgrees(t, next, n)
  {
    hide ParseIndex, FlagRun, TooLarge, SizeAt, PartsOf, Fits, ReadDirective;
    ReadBehindIndex(t, next, n);
    var f := FlagRun(t);
    var at := f + ParseIndex(t[f..]).value.used;
    assert at < |t| ==> t[f..][ParseIndex(t[f..]).value.used..][0] == t[at];
  }

  lemma LeadText(t: string)
    requires ParseIndex(t).Some?
    ensures FlagRun(t) == 0 && t[0..] == t
  {
  }

  /** An index right after "%" that a "*" follows. */
  lemma LeadStar(t: string, next: nat, n: nat)
    requires ParseIndex(t).Some? && Fits(ParseIndex(t).value, n) && SizeAt(t).IndexedText?
    ensures DirectiveAgrees(t, next, n)
  {
    hide *;
    LeadText(t);
    IndexedSizeRead(t, next, n, true);
    LeadStarParts(t);
    var w := ReadSize(t, next, n, true);
    TailRead(t[w.used..], w, n);
    LeadStarComposes(t, next, n, w);
  }

  lemma LeadStarParts(t: string)
    requires ParseIndex(t).Some? && SizeAt(t).IndexedText?
    ensures var ix := ParseIndex(t).value;
            ix.used + 1 <= |t| &&
            var tail := TailOf(t[ix.used + 1..]);
            PartsOf(t) == Parts(Some(ix), 0, StarText, tail, ix.used + 1 + tail.used)
  {
    hide DecimalValue, TailOf;
    var ix := ParseIndex(t).value;
    var s0 := t[ix.used..];
    assert s0[0] == '*' && s0[0..] == s0 && s0[1..] == t[ix.used + 1..];
    StarRead(s0);
    hide ParseIndex, FlagRun;
  }

  lemma StarRead(s: string)
    requires s != "" && s[0] == '*'
    ensures FlagRun(s) == 0 && ParseIndex(s).None? && SizeAt(s) == StarText
  {
  }

  lemma LeadStarComposes(t: string, next: nat, n: nat, w: State)
    requires ParseIndex(t).Some? && Fits(ParseIndex(t).value, n) && FlagRun(t) == 0 && t[0..] == t
    requires var ix := ParseIndex(t).value;
             && ix.used + 1 <= |t|
             && var tail := TailOf(t[ix.used + 1..]);
                && PartsOf(t) == Parts(Some(ix), 0, StarText, tail, ix.used + 1 + tail.used)
                && w == ReadSize(t, next, n, true) == State(ix.arg + 1, true, false, ix.used + 1)
                && TailAgrees(t[w.used..], w.next, n, ReadTail(t[w.used..], w, n))
    ensures DirectiveAgrees(t, next, n)
  {
    Staged(t, next, n);
    hide ParseIndex, SizeAt, ReadSize, ReadTail, FlagRun, TooLarge, PartsOf, TailOf, RefTail, TailInRange, TailReadable, Fits;
    hide ReadDirective;
    var s := t[w.used..];
    assert TailOf(s).used < |s| ==> s[TailOf(s).used] == t[w.used + TailOf(s).used];
  }

  /** One that something else follows. */
  lemma LeadOther(t: string, next: nat, n: nat)
    requires ParseIndex(t).Some? && Fits(ParseIndex(t).value, n) && !SizeAt(t).IndexedText?
    ensures DirectiveAgrees(t, next, n)
  {
    hide *;
    LeadText(t);
    IndexedSizeRead(t, next, n, true);
    LeadRest(t);
    LeadField(t);
    LeadOtherComposes(t, next, n);
  }

  lemma LeadField(t: string)
    ensures PartsOf(t).lead == ParseIndex(t)
  {
    hide ParseIndex, FlagRun, SizeAt, TailOf;
  }

  lemma LeadOtherComposes(t: string, next: nat, n: nat)
    requires ParseIndex(t).Some? && Fits(ParseIndex(t).value, n) && !SizeAt(t).IndexedText?
    requires FlagRun(t) == 0 && t[0..] == t
    requires var ix, p := ParseIndex(t).value, PartsOf(t);
             var s0 := t[ix.used..];
             && p.lead == Some(ix)
             && (p.verbAt < |t| ==>
                  && s0 != ""
                  && (Readable(p, t[p.verbAt]) <==> p.verbAt == ix.used && !IsDigit(s0[0]) && s0[0] != '.')
                  && (Readable(p, t[p.verbAt]) ==> p.width.NoSize? && p.tail == Tail(None, None, 0)))
    ensures DirectiveAgrees(t, next, n)
  {
    hide ParseIndex, FlagRun, TooLarge, SizeAt, PartsOf, Fits, Readable, ReadDirective;
    ReadBehindIndex(t, next, n);
  }

  lemma LeadParts(t: string)
    requires ParseIndex(t).Some?
    ensures var ix := ParseIndex(t).value;
            var s0 := t[ix.used..];
            var f := FlagRun(s0);
            var z, tail := SizeAt(s0[f..]), TailOf(s0[f..][SizeUsed(SizeAt(s0[f..]))..]);
            PartsOf(t) == Parts(Some(ix), f, z, tail, ix.used + f + SizeUsed(z) + tail.used)
  {
    hide ParseIndex, FlagRun, SizeAt, TailOf;
  }

  /** What the scanner makes of the text behind such an index. */
  lemma LeadRest(t: string)
    requires ParseIndex(t).Some? && !SizeAt(t).IndexedText?
    ensures var ix, p := ParseIndex(t).value, PartsOf(t);
            var s0 := t[ix.used..];
            p.verbAt < |t| ==>
              && s0 != ""
              && (Readable(p, t[p.verbAt]) <==> p.verbAt == ix.used && !IsDigit(s0[0]) && s0[0] != '.')
              && (Readable(p, t[p.verbAt]) ==> p.width.NoSize? && p.tail == Tail(None, None, 0))
  {
    hide *;
    LeadParts(t);
    PartsFit(t);
    var s0 := t[ParseIndex(t).value.used..];
    if s0 != "" && IsFlag(s0[0]) {
      LeadFlagged(t);
    } else if s0 != "" {
      LeadUnflagged(t);
    }
  }

  lemma LeadFlagged(t: string)
    requires ParseIndex(t).Some?
    requires var s0 := t[ParseIndex(t).value.used..]; s0 != "" && IsFlag(s0[0])
    ensures var ix, p := ParseIndex(t).value, PartsOf(t); p.verbAt > ix.used && forall verb :: !Readable(p, verb)
  {
    hide *;
    var ix := ParseIndex(t).value;
    var s0 := t[ix.used..];
    LeadParts(t);
    LeadFlags(s0);
    FlaggedLead(PartsOf(t), ix);
  }

  lemma LeadUnflagged(t: string)
    requires ParseIndex(t).Some? && !SizeAt(t).IndexedText?
    requires var s0 := t[ParseIndex(t).value.used..]; s0 != "" && !IsFlag(s0[0])
    ensures var ix, p := ParseIndex(t).value, PartsOf(t);
            var s0 := t[ix.used..];
            p.verbAt < |t| ==>
              && (Readable(p, t[p.verbAt]) <==> p.verbAt == ix.used && !IsDigit(s0[0]) && s0[0] != '.')
              && (Readable(p, t[p.verbAt]) ==> p.width.NoSize? && p.tail == Tail(None, None, 0))
  {
    hide *;
    var ix := ParseIndex(t).value;
    var s0 := t[ix.used..];
    NotStar(t);
    LeadParts(t);
    LeadFlags(s0);
    RestText(s0);
    UnflaggedLead(t, ix, s0);
  }

  lemma PartsFit(t: string)
    ensures PartsOf(t).verbAt <= |t|
  {
  }

  lemma NotStar(t: string)
    requires ParseIndex(t).Some? && !SizeAt(t).IndexedText?
    ensures var s0 := t[ParseIndex(t).value.used..]; s0 == "" || s0[0] != '*'
  {
    hide ParseIndex;
  }

  /** Flags behind it: the scanner goes on to another verb. */
  lemma FlaggedLead(p: Parts, ix: Index)
    requires p.lead == Some(ix) && p.flags > 0 && p.verbAt >= ix.used + p.flags
    ensures forall verb :: !Readable(p, verb)
    ensures p.verbAt > ix.used
  {
    hide TailReadable, Plain;
  }

  /** Text that starts with no flag and no "*": nothing is read of it exactly when it starts with
      the verb. */
  lemma RestText(s: string)
    requires s != "" && !IsFlag(s[0]) && s[0] != '*'
    ensures var z := SizeAt(s);
            var tail := TailOf(s[SizeUsed(z)..]);
            && !z.StarText?
            && (z.NoSize? <==> SizeUsed(z) == 0)
            && (z.NoSize? && tail == Tail(None, None, 0) <==> SizeUsed(z) + tail.used == 0)
            && (IsDigit(s[0]) || s[0] == '.' ==> SizeUsed(z) + tail.used > 0)
  {
    hide DecimalValue;
    if s[0] == '[' {
      BracketSize(s);
      hide DigitRun;
    } else {
      LeadFlags(s);
      assert s[0..] == s;
      hide DigitRun, ParseIndex;
    }
  }

  lemma UnflaggedLead(t: string, ix: Index, s0: string)
    requires s0 != "" && ix.used <= |t|
    requires var z := SizeAt(s0);
             var tail := TailOf(s0[SizeUsed(z)..]);
             && PartsOf(t) == Parts(Some(ix), 0, z, tail, ix.used + SizeUsed(z) + tail.used)
             && !z.StarText?
             && (z.NoSize? && tail == Tail(None, None, 0) <==> SizeUsed(z) + tail.used == 0)
             && (IsDigit(s0[0]) || s0[0] == '.' ==> SizeUsed(z) + tail.used > 0)
    ensures var p := PartsOf(t);
            p.verbAt < |t| ==>
              && (Readable(p, t[p.verbAt]) <==> p.verbAt == ix.used && !IsDigit(s0[0]) && s0[0] != '.')
              && (Readable(p, t[p.verbAt]) ==> p.width.NoSize? && p.tail == Tail(None, None, 0))
  {
    hide PartsOf, SizeAt, TailOf, SizeUsed, TailReadable, Plain;
  }

  lemma LeadFlags(s0: string)
    ensures s0 != "" && IsFlag(s0[0]) ==> FlagRun(s0) > 0
    ensures s0 != "" && !IsFlag(s0[0]) ==> FlagRun(s0) == 0 && s0[FlagRun(s0)..] == s0
    ensures s0 != "" && IsDigit(s0[0]) ==> DigitRun(s0) > 0
    ensures s0 == "" || s0[0] != '[' ==> ParseIndex(s0).None?
    ensures s0 == "" || !IsDigit(s0[0]) ==> DigitRun(s0) == 0
  {
  }

  lemma DirectiveRead(t: string, next: nat, n: nat)
    ensures DirectiveAgrees(t, next, n)
  {
    hide DirectiveAgrees, SizeAt, ParseIndex, Fits, FlagRun;
    var u := t[FlagRun(t)..];
    if ParseIndex(t).Some? {
      if !Fits(ParseIndex(t).value, n) {
        LeadUnfit(t, next, n);
      } else if SizeAt(t).IndexedText? {
        LeadStar(t, next, n);
      } else {
        LeadOther(t, next, n);
      }
    } else if u == "" || u[0] != '[' {
      NoLeadPlain(t, next, n);
    } else if ParseIndex(u).Some? && Fits(ParseIndex(u).value, n) {
      NoLeadIndexed(t, next, n);
    } else {
      NoLeadBad(t, next, n);
    }
  }

  lemma LeadUnfit(t: string, next: nat, n: nat)
    requires ParseIndex(t).Some? && !Fits(ParseIndex(t).value, n)
    ensures DirectiveAgrees(t, next, n)
  {
    LeadText(t);
    StartsWithIndex(t);
    BadSizeRead(t, next, n, true);
    var w := ReadSize(t, next, n, true);
    BadStaysBad(t[w.used..], w, n);
    hide ParseIndex, ReadSize, FlagRun, TooLarge, ReadIndex, SizeAt, Fits;
  }

  // Agreement.

  lemma AlignedNumbers(p: Parts, verb: char, next: nat, n: nat)
    requires Readable(p, verb) && InRange(p, n)
    ensures Aligned(p) ==> RefNext(p, Min(next, n), n) == Min(ScanArg(p, next), n)
    ensures !Aligned(p) ==> RefNext(p, Min(next, n), n) != ScanArg(p, next)
    ensures p.lead.None? && p.tail.last.None? ==> RefNext(p, Min(next, n), n) == Min(ScanNext(p, next), n)
  {
    hide TooLarge, TailReadable, Plain;
  }

  /** For every text of a directive and every number of arguments: package fmt finds the same verb,
      with good indexes, and formats with it the argument that the scanner expects, exactly when
      the directive is readable and aligned, its indexes are in range, and the argument exists. */
  lemma ReadAlikeIff(t: string, next: nat, n: nat)
    ensures var p, d, r := PartsOf(t), ScanDirective(t, next), ReadDirective(t, Min(next, n), n);
            d.used < |t| ==>
              (r.good && r.used == d.used && r.next == d.arg < n
               <==> Readable(p, t[d.used]) && InRange(p, n) && Aligned(p) && d.arg < n)
  {
    hide PartsOf, ScanDirective, ReadDirective, Readable, InRange, Aligned, RefNext, ScanArg, ScanNext;
    var p := PartsOf(t);
    ScanIsParts(t, next);
    DirectiveRead(t, Min(next, n), n);
    if p.verbAt < |t| && Readable(p, t[p.verbAt]) && InRange(p, n) {
      AlignedNumbers(p, t[p.verbAt], next, n);
    }
  }

  lemma {:induction false} BelowAll(xs: seq<nat>, n: nat)
    ensures Below(xs, n) == xs <==> forall i :: 0 <= i < |xs| ==> xs[i] < n
    ensures |Below(xs, n)| <= |xs|
  {
    if xs != [] {
      BelowAll(xs[1..], n);
      assert xs == [xs[0]] + xs[1..];
      if Below(xs, n) == xs {
        assert xs[0] < n;
        assert ([xs[0]] + Below(xs[1..], n))[1..] == Below(xs[1..], n);
      }
    }
  }

  lemma BelowAppend(front: seq<nat>, xs: seq<nat>, n: nat)
    requires |front| <= 1
    ensures Below(front + xs, n) == Below(front, n) + Below(xs, n)
    ensures Below([], n) == [] && forall x: nat :: Below([x], n) == if x < n then [x] else []
  {
    if front == [] {
      assert front + xs == xs;
    } else {
      assert (front + xs)[1..] == xs && front[1..] == [];
    }
  }

  // Text without a verb.

  predicate IsDirectiveChar(c: char) {
    IsFlag(c) || IsDigit(c) || c == '[' || c == ']' || c == '*' || c == '.'
  }

  predicate DirectiveText(s: string) {
    forall i :: 0 <= i < |s| ==> IsDirectiveChar(s[i])
  }

  lemma TextConcat(a: string, b: string)
    requires DirectiveText(a) && DirectiveText(b)
    ensures DirectiveText(a + b)
  {
  }

  lemma {:induction false} FlagText(s: string)
    ensures DirectiveText(s[..FlagRun(s)])
  {
    if s != "" && IsFlag(s[0]) {
      FlagText(s[1..]);
      assert s[..FlagRun(s)] == [s[0]] + s[1..][..FlagRun(s[1..])];
    }
  }

  lemma IndexText(s: string)
    requires ParseIndex(s).Some?
    ensures DirectiveText(s[..ParseIndex(s).value.used])
  {
    hide DecimalValue;
    DigitsInFront(s[1..]);
    var k := DigitRun(s[1..]);
    assert forall i :: 1 <= i < k + 1 ==> s[i] == s[1..][i - 1];
  }

  lemma SizeIsText(s: string)
    ensures DirectiveText(s[..SizeUsed(SizeAt(s))])
  {
    hide DecimalValue;
    DigitsInFront(s);
    if ParseIndex(s).Some? {
      IndexText(s);
      var k := ParseIndex(s).value.used;
      hide ParseIndex;
      assert k < |s| ==> s[..k + 1] == s[..k] + [s[k]];
    }
  }

  lemma TailIsText(s: string)
    ensures DirectiveText(s[..TailOf(s).used])
  {
    var t := TailOf(s);
    if s != "" && s[0] == '.' {
      SizeIsText(s[1..]);
      var k := 1 + SizeUsed(SizeAt(s[1..]));
      hide SizeAt;
      assert s[..k] == ['.'] + s[1..][..k - 1];
      LastIsText(s, k);
    } else {
      LastIsText(s, 0);
    }
  }

  lemma LastIsText(s: string, k: nat)
    requires k <= |s| && DirectiveText(s[..k])
    ensures var last := ParseIndex(s[k..]); DirectiveText(s[..k + if last.Some? then last.value.used else 0])
  {
    hide ParseIndex;
    var last := ParseIndex(s[k..]);
    if last.Some? {
      IndexText(s[k..]);
      var m := last.value.used;
      assert s[..k + m] == s[..k] + s[k..][..m];
    }
  }

  /** What the scanner passes over on its way to the verb. */
  lemma PartsAreText(t: string)
    ensures DirectiveText(t[..PartsOf(t).verbAt])
  {
    hide ParseIndex, FlagRun, SizeAt, TailOf;
    var lead := ParseIndex(t);
    var a := if lead.Some? then lead.value.used else 0;
    if lead.Some? {
      IndexText(t);
    }
    var s0 := t[a..];
    FlagText(s0);
    var s1 := s0[FlagRun(s0)..];
    SizeIsText(s1);
    var s2 := s1[SizeUsed(SizeAt(s1))..];
    TailIsText(s2);
    Pieces(t, a, FlagRun(s0), SizeUsed(SizeAt(s1)), TailOf(s2).used);
  }

  lemma Pieces(t: string, a: nat, b: nat, c: nat, d: nat)
    requires a + b + c + d <= |t|
    requires DirectiveText(t[..a]) && DirectiveText(t[a..][..b]) && DirectiveText(t[a..][b..][..c])
    requires DirectiveText(t[a..][b..][c..][..d])
    ensures DirectiveText(t[..a + b + c + d])
  {
    assert t[..a + b + c + d] == t[..a] + (t[a..][..b] + (t[a..][b..][..c] + t[a..][b..][c..][..d]));
  }

  lemma {:induction false} NoPercent(s: string, next: nat, n: nat)
    requires '%' !in s
    ensures FmtWraps(s, next, n) == []
  {
    if s != "" {
      NoPercent(s[1..], next, n);
    }
  }

  /** The cases of a directive in package fmt's scan. */
  lemma FmtStep(s: string, next: nat, n: nat)
    requires s != ""
    ensures s[0] != '%' ==> FmtWraps(s, next, n) == FmtWraps(s[1..], next, n)
    ensures s[0] == '%' ==>
      var d := ReadDirective(s[1..], next, n);
      if d.used + 1 >= |s| then FmtWraps(s, next, n) == []
      else
        var verb, rest := s[d.used + 1], s[d.used + 2..];
        if verb == '%' || !d.good || d.next >= n then FmtWraps(s, next, n) == FmtWraps(rest, d.next, n)
        else FmtWraps(s, next, n) == (if verb == 'w' then [d.next] else []) + FmtWraps(rest, d.next + 1, n)
  {
    hide ReadDirective;
  }

  /** Package fmt's verb in text that has none for the scanner wraps nothing. */
  lemma EarlyVerb(s: string, next: nat, n: nat)
    requires s != "" && s[0] == '%'
    requires forall i :: 1 <= i < |s| && i <= ReadDirective(s[1..], next, n).used + 1 ==> s[i] != 'w'
    requires forall i :: 1 <= i < |s| ==> s[i] != '%'
    ensures FmtWraps(s, next, n) == []
  {
    hide ReadDirective;
    FmtStep(s, next, n);
    var d := ReadDirective(s[1..], next, n);
    if d.used + 1 < |s| {
      var rest := s[d.used + 2..];
      assert '%' !in rest;
      NoPercent(rest, d.next, n);
      NoPercent(rest, d.next + 1, n);
    }
  }

  lemma PercentRead(t: string, next: nat, n: nat)
    requires t != "" && t[0] == '%'
    ensures ReadDirective(t, next, n) == State(next, true, false, 0)
  {
    assert FlagRun(t) == 0 && t[0..] == t;
    NumberRead(t);
  }

  lemma NoVerbText(s: string)
    requires s != "" && s[0] == '%' && PartsOf(s[1..]).verbAt + 1 >= |s|
    ensures forall i :: 1 <= i < |s| ==> s[i] != 'w' && s[i] != '%'
  {
    hide PartsOf;
    PartsAreText(s[1..]);
    var t := s[1..];
    assert forall i :: 0 <= i < |t| ==> IsDirectiveChar(t[..PartsOf(t).verbAt][i]) && t[i] == s[i + 1];
  }

  /** When all directives of a format are alike, package fmt wraps exactly the existing arguments
      that the scanner finds, in the same order. */
  lemma {:induction false} AllAlikeAgree(s: string, next: nat, n: nat)
    requires AllAlike(s, next, n)
    ensures FmtWraps(s, Min(next, n), n) == Below(WrapArgs(s, next), n)
    decreases |s|
  {
    hide WrapArgs, FmtWraps, PartsOf, ScanDirective, ReadDirective, Alike, ScanArg, ScanNext, Below;
    if s == "" {
      WrapNothing();
      NoPercent(s, Min(next, n), n);
      BelowAll([], n);
    } else {
      WrapStep(s, next);
      FmtStep(s, Min(next, n), n);
      if s[0] != '%' {
        AllAlikeAgree(s[1..], next, n);
      } else if |s| == 1 {
        BelowAll([], n);
      } else if s[1] == '%' {
        assert s[1..][0] == '%';
        PercentRead(s[1..], Min(next, n), n);
        AllAlikeAgree(s[2..], next, n);
      } else {
        DirectiveStep(s, next, n);
        var p := PartsOf(s[1..]);
        if p.verbAt + 1 < |s| {
          AllAlikeAgree(s[p.verbAt + 2..], if s[p.verbAt + 1] == '%' then ScanNext(p, next) else ScanArg(p, next) + 1, n);
        }
      }
    }
  }

  /** One directive of both scans. */
  lemma DirectiveStep(s: string, next: nat, n: nat)
    requires |s| > 1 && s[0] == '%' && s[1] != '%'
    requires var p := PartsOf(s[1..]); p.verbAt + 1 < |s| ==> Alike(p, s[p.verbAt + 1], next, n)
    ensures var p := PartsOf(s[1..]);
            if p.verbAt + 1 >= |s| then FmtWraps(s, Min(next, n), n) == [] == Below(WrapArgs(s, next), n)
            else
              var after := if s[p.verbAt + 1] == '%' then ScanNext(p, next) else ScanArg(p, next) + 1;
              var rest := s[p.verbAt + 2..];
              FmtWraps(rest, Min(after, n), n) == Below(WrapArgs(rest, after), n) ==>
                FmtWraps(s, Min(next, n), n) == Below(WrapArgs(s, next), n)
  {
    hide WrapArgs, FmtWraps, PartsOf, ScanDirective, ReadDirective, Readable, InRange, Aligned, RefNext, ScanArg, ScanNext, Below;
    var t := s[1..];
    var p, r := PartsOf(t), ReadDirective(t, Min(next, n), n);
    ScanIsParts(t, next);
    WrapStep(s, next);
    FmtStep(s, Min(next, n), n);
    BelowAll([], n);
    if p.verbAt + 1 >= |s| {
      NoVerbText(s);
      EarlyVerb(s, Min(next, n), n);
    } else {
      var verb, rest, arg := s[p.verbAt + 1], s[p.verbAt + 2..], ScanArg(p, next);
      assert t[p.verbAt] == verb;
      DirectiveRead(t, Min(next, n), n);
      AlignedNumbers(p, verb, next, n);
      var front := if verb == 'w' then [arg] else [];
      BelowAppend(front, WrapArgs(rest, arg + 1), n);
      assert [] + WrapArgs(rest, ScanNext(p, next)) == WrapArgs(rest, ScanNext(p, next));
    }
  }

  /** For a single directive that ends in "w", whatever its text: package fmt wraps the argument the
      scanner reports exactly when the directive is read alike, and otherwise nothing or another. */
  lemma SingleWrapIff(t: string, next: nat, n: nat)
    requires PartsOf(t).verbAt + 1 == |t| && t[|t| - 1] == 'w'
    ensures var p := PartsOf(t);
            && WrapArgs("%" + t, next) == [ScanArg(p, next)]
            && (FmtWraps("%" + t, Min(next, n), n) == WrapArgs("%" + t, next)
                <==> Readable(p, 'w') && InRange(p, n) && Aligned(p) && ScanArg(p, next) < n)
    ensures !(Readable(PartsOf(t), 'w') && InRange(PartsOf(t), n)) ==> FmtWraps("%" + t, Min(next, n), n) == []
  {
    hide WrapArgs, FmtWraps, PartsOf, ScanDirective, ReadDirective, Readable, InRange, Aligned, ScanArg, ScanNext;
    var s := "%" + t;
    assert s[1..] == t && s[|t|] == t[|t| - 1] == 'w' && s[|t| + 1..] == "";
    ScanIsParts(t, next);
    ReadAlikeIff(t, next, n);
    DirectiveRead(t, Min(next, n), n);
    FirstIsNoPercent(t);
    assert s[1] == t[0];
    WrapStep(s, next);
    WrapNothing();
    SingleRead(t, Min(next, n), n);
  }

  lemma FirstIsNoPercent(t: string)
    requires PartsOf(t).verbAt + 1 == |t| && t[|t| - 1] == 'w'
    ensures forall i :: 0 <= i < |t| ==> t[i] != '%' && (i < |t| - 1 ==> t[i] != 'w')
  {
    hide PartsOf;
    PartsAreText(t);
    assert forall i :: 0 <= i < |t| - 1 ==> IsDirectiveChar(t[..|t| - 1][i]) && t[..|t| - 1][i] == t[i];
  }

  lemma SingleRead(t: string, next: nat, n: nat)
    requires PartsOf(t).verbAt + 1 == |t| && t[|t| - 1] == 'w'
    ensures var r := ReadDirective(t, next, n);
            FmtWraps("%" + t, next, n) == if r.good && r.used == |t| - 1 && r.next < n then [r.next] else []
  {
    hide FmtWraps, PartsOf, ReadDirective;
    var s := "%" + t;
    assert s[1..] == t && s[|t|] == 'w' && s[|t| + 1..] == "";
    var r := ReadDirective(t, next, n);
    FirstIsNoPercent(t);
    if r.used == |t| - 1 {
      FmtStep(s, next, n);
      NoPercent("", r.next, n);
      NoPercent("", r.next + 1, n);
    } else if r.used < |t| - 1 {
      assert forall i :: 1 <= i < |s| ==> s[i] == t[i - 1];
      EarlyVerb(s, next, n);
    } else {
      FmtStep(s, next, n);
    }
  }
}
