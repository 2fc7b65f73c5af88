/** Package fmt's scan of a printed format gives its arguments the documented numbers. */
module FmtPrinted {
  import opened FmtAgreement
  import opened FmtDirectives
  import opened FmtNumbering
  import opened FmtReference
  import opened GoStrings
  import opened Options

  /** No number is too large for package fmt. */
  predicate SizeFitting(s: Size) {
    match s
    case Absent | Star => true
    case Digits(ds) => !TooLarge(DecimalValue(ds))
    case IndexedStar(ix) => !TooLarge(DecimalValue(ix))
  }

  predicate Fitting(d: Directive) {
    && SizeFitting(d.width) && (d.precision.Some? ==> SizeFitting(d.precision.value))
    && (d.index.Some? ==> !TooLarge(DecimalValue(d.index.value)))
  }

  predicate AllFitting(ps: seq<Piece>) {
    forall i :: 0 <= i < |ps| && ps[i].Verb? ==> Fitting(ps[i].directive)
  }

  lemma IndexRead(ix: string, t: string, next: nat, n: nat)
    requires IsIndex(ix) && !TooLarge(DecimalValue(ix))
    ensures ReadIndex(PrintIndex(ix) + t, next, n)
         == if DecimalValue(ix) <= n then State(DecimalValue(ix) - 1, true, true, |ix| + 2) else State(next, false, true, |ix| + 2)
    ensures (PrintIndex(ix) + t)[|ix| + 2..] == t
  {
    hide DecimalValue, TooLarge, ParseIndex, IsIndex, ParseBracket;
    ValueOf(ix);
    ParsePrintedIndex(ix, t);
    IndexIsBracket(PrintIndex(ix) + t);
    StartsWithIndex(PrintIndex(ix) + t);
  }

  /** A size, and text that neither continues it nor is an index in its place. */
  lemma SizeRead(s: Size, t: string, next: nat, n: nat, width: bool)
    requires WellFormedSize(s) && SizeFitting(s)
    requires t != "" && !IsDigit(t[0]) && t[0] != '*' && (s.Absent? ==> t[0] != '[')
    ensures var at := AfterSize(s, Position(next, true), n);
            ReadSize(PrintSize(s) + t, next, n, width) == State(at.next, at.good, false, |PrintSize(s)|)
    ensures (PrintSize(s) + t)[|PrintSize(s)|..] == t
  {
    hide DecimalValue, TooLarge, ReadIndex, IsIndex;
    DropPrefix(PrintSize(s), t);
    var u := PrintSize(s) + t;
    match s
    case Absent =>
      assert u == t;
      NoIndexRead(u, next, n);
      NumberRead(t);
    case Digits(ds) =>
      assert u == ds + t && u[0] == ds[0];
      NoIndexRead(u, next, n);
      DigitsRead(ds, t);
      assert u[0..] == u;
    case Star =>
      assert u[0] == '*';
      NoIndexRead(u, next, n);
    case IndexedStar(ix) =>
      assert u == PrintIndex(ix) + ("*" + t);
      ValueOf(ix);
      IndexRead(ix, "*" + t, next, n);
  }

  lemma NoIndexRead(s: string, next: nat, n: nat)
    requires s == "" || s[0] != '['
    ensures ReadIndex(s, next, n) == State(next, true, false, 0) && s[0..] == s
  {
  }

  lemma DigitsRead(ds: string, t: string)
    requires AllDigits(ds) && !TooLarge(DecimalValue(ds)) && t != "" && !IsDigit(t[0])
    ensures ParseNumber(ds + t) == Number(DecimalValue(ds), true, |ds|)
  {
    hide DecimalValue, TooLarge;
    DigitRunOf(ds, t);
    assert (ds + t)[..|ds|] == ds;
  }

  /** The verb's index where a size is expected. */
  lemma IndexForSize(ix: string, t: string, next: nat, n: nat, width: bool)
    requires IsIndex(ix) && !TooLarge(DecimalValue(ix)) && t != "" && !IsDigit(t[0]) && t[0] != '*'
    ensures ReadSize(PrintIndex(ix) + t, next, n, width) == ReadIndex(PrintIndex(ix) + t, next, n)
  {
    hide DecimalValue, TooLarge, ReadIndex, IsIndex;
    IndexRead(ix, t, next, n);
    NumberRead(t);
  }

  /** The verb, with its index if it has one. */
  lemma VerbRead(d: Directive, rest: string, next: nat, n: nat)
    requires WellFormed(d) && Fitting(d)
    ensures var r, at := ReadIndex(PrintVerb(d) + rest, next, n), AfterIndex(d.index, Position(next, true), n);
            r.next == at.next && r.good == at.good && r.used == |PrintVerb(d)| - 1
    ensures d.index.Some? ==> ReadIndex(PrintVerb(d) + rest, next, n).afterIndex
  {
    hide DecimalValue, TooLarge, ReadIndex, IsIndex;
    VerbLength(d);
    if d.index.Some? {
      assert PrintVerb(d) + rest == PrintIndex(d.index.value) + ([d.verb] + rest);
      IsItsIndex(d);
      IndexRead(d.index.value, [d.verb] + rest, next, n);
    } else {
      NoIndexRead(PrintVerb(d) + rest, next, n);
    }
  }

  lemma IsItsIndex(d: Directive)
    requires WellFormed(d) && d.index.Some?
    ensures IsIndex(d.index.value)
  {
  }

  lemma VerbStarts(d: Directive, rest: string)
    requires WellFormed(d)
    ensures var v := PrintVerb(d) + rest;
            v != "" && !IsDigit(v[0]) && v[0] != '*' && v[0] != '.' && !IsFlag(v[0]) && (v[0] == '[' <==> d.index.Some?)
  {
  }

  // Sizes and the verb.

  lemma TailPrinted(d: Directive, rest: string, st: State, n: nat)
    requires WellFormed(d) && Fitting(d) && !st.afterIndex
    ensures var p := if d.precision.Some? then AfterSize(d.precision.value, Position(st.next, true), n) else Position(st.next, true);
            var at := AfterIndex(d.index, p, n);
            var r := ReadTail(PrintPrecision(d.precision) + (PrintVerb(d) + rest), st, n);
            && r.next == at.next && r.good == (st.good && at.good)
            && r.used == |PrintPrecision(d.precision)| + |PrintVerb(d)| - 1
  {
    hide DecimalValue, TooLarge, ReadIndex, ReadSize, IsIndex, PrintVerb, PrintSize, WellFormedSize, AfterSize,
        AfterIndex, WellFormed, Fitting;
    var v := PrintVerb(d) + rest;
    VerbStarts(d, rest);
    if d.precision.None? {
      assert PrintPrecision(d.precision) + v == v && v[0..] == v;
      VerbRead(d, rest, st.next, n);
    } else if d.precision.value.Absent? && d.index.Some? {
      assert PrintPrecision(d.precision) + v == "." + v by {
        NothingPrinted();
        assert "." + "" == ".";
      }
      assert ("." + v)[1..] == v;
      AbsentIndexed(d, rest, st.next, n, false);
      VerbRead(d, rest, st.next, n);
      AbsentIsNothing(Position(st.next, true), n);
    } else {
      PrecisionPrinted(d, rest, st, n);
    }
  }

  lemma AbsentIsNothing(at: Position, n: nat)
    ensures AfterSize(Absent, at, n) == at && |PrintPrecision(Some(Absent))| == 1
  {
  }

  lemma PrecisionPrinted(d: Directive, rest: string, st: State, n: nat)
    requires WellFormed(d) && Fitting(d) && !st.afterIndex && d.precision.Some? && !(d.precision.value.Absent? && d.index.Some?)
    ensures var p := AfterSize(d.precision.value, Position(st.next, true), n);
            var at := AfterIndex(d.index, p, n);
            var r := ReadTail(PrintPrecision(d.precision) + (PrintVerb(d) + rest), st, n);
            && r.next == at.next && r.good == (st.good && at.good)
            && r.used == |PrintPrecision(d.precision)| + |PrintVerb(d)| - 1
  {
    hide DecimalValue, TooLarge, ReadIndex, ReadSize, IsIndex, PrintVerb, PrintSize, WellFormedSize, AfterSize,
        WellFormed, Fitting, IsFlag, IsDigit;
    var v, z := PrintVerb(d) + rest, d.precision.value;
    var s := PrintPrecision(d.precision) + v;
    assert s == "." + (PrintSize(z) + v) && s[1..] == PrintSize(z) + v;
    VerbStarts(d, rest);
    PrecisionFits(d);
    SizeRead(z, v, st.next, n, false);
    VerbRead(d, rest, AfterSize(z, Position(st.next, true), n).next, n);
    assert s[1 + |PrintSize(z)|..] == v;
  }

  lemma PrecisionFits(d: Directive)
    requires WellFormed(d) && Fitting(d) && d.precision.Some?
    ensures WellFormedSize(d.precision.value) && SizeFitting(d.precision.value)
  {
  }

  lemma AbsentIndexed(d: Directive, rest: string, next: nat, n: nat, width: bool)
    requires WellFormed(d) && Fitting(d) && d.index.Some?
    ensures PrintSize(Absent) + (PrintVerb(d) + rest) == PrintVerb(d) + rest
    ensures ReadSize(PrintVerb(d) + rest, next, n, width) == ReadIndex(PrintVerb(d) + rest, next, n)
  {
    hide DecimalValue, TooLarge, ReadIndex, ReadSize, IsIndex;
    IsItsIndex(d);
    assert PrintVerb(d) + rest == PrintIndex(d.index.value) + ([d.verb] + rest);
    IndexForSize(d.index.value, [d.verb] + rest, next, n, width);
  }

  /** Everything between "%" and the verb. */
  lemma DirectivePrinted(d: Directive, rest: string, next: nat, n: nat)
    requires WellFormed(d) && Fitting(d)
    ensures var r, at := ReadDirective(PrintBody(d) + rest, next, n), AtVerb(d, next, n);
            r.next == at.next && r.good == at.good && r.used == |PrintBody(d)| - 1
  {
    BodyText(d, rest);
    hide ReadIndex, ReadSize, ReadTail, ReadDirective, PrintBody, PrintSize, PrintPrecision, PrintVerb, AtVerb,
        FlagRun, WellFormed, Fitting, IsFlag;
    VerbLength(d);
    NotAFlag(d, rest);
    FlagsOf(d);
    FlagRunOf(d.flags, PrintSize(d.width) + PrintPrecision(d.precision) + (PrintVerb(d) + rest));
    DropPrefix(d.flags, PrintSize(d.width) + PrintPrecision(d.precision) + (PrintVerb(d) + rest));
    Staged(PrintBody(d) + rest, next, n);
    if d.width.Absent? && d.precision.None? && d.index.Some? {
      IndexedVerbPrinted(d, rest, next, n);
    } else {
      SizedVerbPrinted(d, rest, next, n);
    }
  }

  lemma BodyText(d: Directive, rest: string)
    ensures PrintBody(d) + rest == d.flags + (PrintSize(d.width) + PrintPrecision(d.precision) + (PrintVerb(d) + rest))
    ensures |PrintBody(d)| == |d.flags| + |PrintSize(d.width)| + |PrintPrecision(d.precision)| + |PrintVerb(d)|
  {
    hide PrintSize, PrintPrecision, PrintVerb;
    var a, b, c := PrintSize(d.width), PrintPrecision(d.precision), PrintVerb(d);
    assert d.flags + (a + (b + c)) + rest == d.flags + (a + b + (c + rest));
  }

  lemma FlagsOf(d: Directive)
    requires WellFormed(d)
    ensures forall i :: 0 <= i < |d.flags| ==> IsFlag(d.flags[i])
  {
  }

  /** Sizes and the verb, read one after the other. */
  ghost predicate ReadsAs(d: Directive, rest: string, next: nat, n: nat) {
    WellFormed(d) &&
    var u := PrintSize(d.width) + PrintPrecision(d.precision) + (PrintVerb(d) + rest);
    var w := ReadSize(u, next, n, true);
    var x, at := ReadTail(u[w.used..], w, n), AtVerb(d, next, n);
    && x.next == at.next && x.good == at.good
    && w.used + x.used == |PrintSize(d.width)| + |PrintPrecision(d.precision)| + |PrintVerb(d)| - 1
  }

  lemma IndexedVerbPrinted(d: Directive, rest: string, next: nat, n: nat)
    requires WellFormed(d) && Fitting(d) && d.width.Absent? && d.precision.None? && d.index.Some?
    ensures ReadsAs(d, rest, next, n)
  {
    hide DecimalValue, TooLarge, ReadIndex, ReadSize, ReadTail, IsIndex, PrintVerb, PrintSize, PrintPrecision;
    var v := PrintVerb(d) + rest;
    NothingPrinted();
    assert PrintSize(d.width) + PrintPrecision(d.precision) + v == v;
    AbsentIndexed(d, rest, next, n, true);
    VerbRead(d, rest, next, n);
    VerbBehindIndex(d, rest, next, n);
  }

  lemma SizedVerbPrinted(d: Directive, rest: string, next: nat, n: nat)
    requires WellFormed(d) && Fitting(d) && !(d.width.Absent? && d.precision.None? && d.index.Some?)
    ensures ReadsAs(d, rest, next, n)
  {
    hide DecimalValue, TooLarge, ReadIndex, ReadSize, ReadTail, IsIndex, PrintVerb, PrintSize, PrintPrecision, AtVerb,
        AfterSize, AfterIndex, WellFormed, Fitting;
    var s2 := PrintPrecision(d.precision) + (PrintVerb(d) + rest);
    var u := PrintSize(d.width) + PrintPrecision(d.precision) + (PrintVerb(d) + rest);
    assert u == PrintSize(d.width) + s2;
    WidthFits(d);
    PrecisionStarts(d, rest);
    SizeRead(d.width, s2, next, n, true);
    TailPrinted(d, rest, ReadSize(u, next, n, true), n);
    GoodAtVerb(d, next, n);
  }

  lemma NothingPrinted()
    ensures PrintSize(Absent) == "" && PrintPrecision(None) == ""
  {
  }

  lemma WidthFits(d: Directive)
    requires WellFormed(d) && Fitting(d)
    ensures WellFormedSize(d.width) && SizeFitting(d.width)
  {
  }

  lemma PrecisionStarts(d: Directive, rest: string)
    requires WellFormed(d)
    ensures var s := PrintPrecision(d.precision) + (PrintVerb(d) + rest);
            s != "" && !IsDigit(s[0]) && s[0] != '*' && (s[0] == '[' ==> d.precision.None? && d.index.Some?)
  {
    VerbStarts(d, rest);
  }

  /** Nothing more is read between the verb's index and the verb. */
  lemma VerbBehindIndex(d: Directive, rest: string, next: nat, n: nat)
    requires WellFormed(d) && Fitting(d) && d.index.Some?
    ensures var v := PrintVerb(d) + rest;
            var w := ReadIndex(v, next, n);
            ReadTail(v[w.used..], w, n) == State(w.next, w.good, true, 0)
  {
    hide DecimalValue, TooLarge, ReadIndex, IsIndex;
    VerbRead(d, rest, next, n);
    var v := PrintVerb(d) + rest;
    VerbText(d, rest);
    assert v[|PrintVerb(d)| - 1..][0] == d.verb;
    TailBehindIndex(v[|PrintVerb(d)| - 1..], ReadIndex(v, next, n), n);
  }

  /** An error in a size does not change where the numbering goes on. */
  lemma GoodAtVerb(d: Directive, next: nat, n: nat)
    requires WellFormed(d)
    ensures var w := AfterSize(d.width, Position(next, true), n);
            var p := if d.precision.Some? then AfterSize(d.precision.value, Position(w.next, true), n) else Position(w.next, true);
            var at := AfterIndex(d.index, p, n);
            AtVerb(d, next, n) == Position(at.next, w.good && at.good)
  {
    hide DecimalValue;
  }

  // Whole formats.

  lemma {:induction false} LiteralRead(t: string, rest: string, next: nat, n: nat)
    requires '%' !in t
    ensures FmtWraps(t + rest, next, n) == FmtWraps(rest, next, n)
  {
    hide FmtWraps;
    if t == "" {
      assert t + rest == rest;
    } else {
      FmtStep(t + rest, next, n);
      assert (t + rest)[1..] == t[1..] + rest;
      LiteralRead(t[1..], rest, next, n);
    }
  }

  lemma VerbWraps(d: Directive, rest: string, next: nat, n: nat)
    requires WellFormed(d) && Fitting(d)
    ensures var arg := VerbArg(d, next, n);
            var wrapped := if d.verb == 'w' && arg.Some? then [arg.value] else [];
            FmtWraps(PrintPiece(Verb(d)) + rest, next, n) == wrapped + FmtWraps(rest, AfterVerb(d, next, n), n)
  {
    hide FmtWraps, ReadDirective, AtVerb, WellFormed, Fitting;
    var body := PrintBody(d);
    var s := PrintPiece(Verb(d)) + rest;
    assert s[1..] == body + rest && s[0] == '%';
    DirectivePrinted(d, rest, next, n);
    BodyShape(d);
    VerbIsNoPercent(d);
    hide PrintBody;
    assert s[|body|] == d.verb;
    assert s[|body| + 1..] == rest;
    FmtStep(s, next, n);
    var r := FmtWraps(rest, AfterVerb(d, next, n), n);
    assert [] + r == r;
  }

  lemma VerbIsNoPercent(d: Directive)
    requires WellFormed(d)
    ensures d.verb != '%'
  {
  }

  /** For every format of the documented grammar. */
  lemma {:induction false} FmtOfPrint(ps: seq<Piece>, next: nat, n: nat)
    requires WellFormedPieces(ps) && AllFitting(ps)
    ensures FmtWraps(Print(ps), next, n) == RefWraps(ps, next, n)
  {
    hide FmtWraps, VerbArg, AfterVerb, PrintBody, ReadDirective;
    if ps == [] {
      NoPercent("", next, n);
    } else {
      var rest := Print(ps[1..]);
      match ps[0]
      case Literal(t) =>
        LiteralRead(t, rest, next, n);
        FmtOfPrint(ps[1..], next, n);
      case Percent =>
        var s := "%%" + rest;
        PercentRead(s[1..], next, n);
        FmtStep(s, next, n);
        assert s[2..] == rest;
        FmtOfPrint(ps[1..], next, n);
      case Verb(d) =>
        VerbWraps(d, rest, next, n);
        FmtOfPrint(ps[1..], AfterVerb(d, next, n), n);
    }
  }
}
