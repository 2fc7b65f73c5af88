/** The documented grammar of format directives as a printer, the argument numbering package fmt
    gives it, and when the scanner agrees. Explicit indexes are digit strings counting from 1. */
module FmtNumbering {
  import opened FmtAgreement
  import opened FmtDirectives
  import opened FmtReference
  import opened GoStrings
  import opened Options

  /** Absent, digits, "*", or "[n]*". */
  datatype Size = Absent | Digits(digits: string) | Star | IndexedStar(index: string)

  datatype Directive = Directive(flags: string, width: Size, precision: Option<Size>, index: Option<string>, verb: char)

  datatype Piece = Literal(text: string) | Percent | Verb(directive: Directive)

  predicate AllDigits(ds: string) {
    ds != "" && forall i :: 0 <= i < |ds| ==> IsDigit(ds[i])
  }

  predicate IsIndex(ds: string) {
    AllDigits(ds) && DecimalValue(ds) >= 1
  }

  predicate WellFormedSize(s: Size) {
    match s
    case Absent | Star => true
    case Digits(ds) => AllDigits(ds)
    case IndexedStar(ix) => IsIndex(ix)
  }

  predicate IsVerb(c: char) {
    !FmtFlag(c) && !IsDigit(c) && c != '.' && c != '*' && c != '[' && c != '%'
  }

  /** A leading zero of a width is a flag, so the digits of a width do not start with one. */
  predicate WellFormed(d: Directive) {
    && (forall i :: 0 <= i < |d.flags| ==> FmtFlag(d.flags[i]))
    && WellFormedSize(d.width) && (d.width.Digits? ==> d.width.digits[0] != '0')
    && (d.precision.Some? ==> WellFormedSize(d.precision.value))
    && (d.index.Some? ==> IsIndex(d.index.value))
    && IsVerb(d.verb)
  }

  predicate WellFormedPiece(p: Piece) {
    match p
    case Literal(t) => '%' !in t
    case Percent => true
    case Verb(d) => WellFormed(d)
  }

  predicate WellFormedPieces(ps: seq<Piece>) {
    forall i :: 0 <= i < |ps| ==> WellFormedPiece(ps[i])
  }

  // Printing.

  function PrintIndex(ix: string): string {
    "[" + ix + "]"
  }

  function PrintSize(s: Size): string {
    match s
    case Absent => ""
    case Digits(ds) => ds
    case Star => "*"
    case IndexedStar(ix) => PrintIndex(ix) + "*"
  }

  function PrintPrecision(p: Option<Size>): string {
    match p
    case None => ""
    case Some(s) => "." + PrintSize(s)
  }

  function PrintVerb(d: Directive): string {
    (if d.index.Some? then PrintIndex(d.index.value) else "") + [d.verb]
  }

  /** Everything after the "%". */
  function PrintBody(d: Directive): string {
    d.flags + (PrintSize(d.width) + (PrintPrecision(d.precision) + PrintVerb(d)))
  }

  function PrintPiece(p: Piece): string {
    match p
    case Literal(t) => t
    case Percent => "%%"
    case Verb(d) => "%" + PrintBody(d)
  }

  function Print(ps: seq<Piece>): string {
    if ps == [] then "" else PrintPiece(ps[0]) + Print(ps[1..])
  }

  // Numbering.

  /** Where the numbering stands, and whether every index met so far names an argument. */
  datatype Position = Position(next: nat, good: bool)

  /** With n arguments, "*" takes the next one if there is one left; "[k]*" takes argument k and
      leaves k + 1 next. An index beyond the arguments is ignored and makes the directive bad. */
  function AfterSize(s: Size, at: Position, n: nat): Position
    requires WellFormedSize(s)
  {
    match s
    case Absent | Digits(_) => at
    case Star => at.(next := Take(at.next, n))
    case IndexedStar(ix) =>
      if DecimalValue(ix) <= n then at.(next := DecimalValue(ix)) else Position(Take(at.next, n), false)
  }

  function AfterIndex(index: Option<string>, at: Position, n: nat): Position
    requires index.Some? ==> IsIndex(index.value)
  {
    match index
    case Some(ix) => if DecimalValue(ix) <= n then at.(next := DecimalValue(ix) - 1) else at.(good := false)
    case None => at
  }

  /** Where the numbering stands when package fmt comes to the verb. */
  function AtVerb(d: Directive, next: nat, n: nat): Position
    requires WellFormed(d)
  {
    var w := AfterSize(d.width, Position(next, true), n);
    var p := if d.precision.Some? then AfterSize(d.precision.value, w, n) else w;
    AfterIndex(d.index, p, n)
  }

  /** The zero-based argument that package fmt formats with this verb; none, and none used up, for
      a bad index or when the arguments are exhausted. */
  function VerbArg(d: Directive, next: nat, n: nat): Option<nat>
    requires WellFormed(d)
  {
    var at := AtVerb(d, next, n);
    if at.good && at.next < n then Some(at.next) else None
  }

  function AfterVerb(d: Directive, next: nat, n: nat): nat
    requires WellFormed(d)
  {
    if VerbArg(d, next, n).Some? then VerbArg(d, next, n).value + 1 else AtVerb(d, next, n).next
  }

  /** The arguments that fmt.Errorf wraps, of n. */
  function RefWraps(ps: seq<Piece>, next: nat, n: nat): seq<nat>
    requires WellFormedPieces(ps)
  {
    if ps == [] then []
    else
      match ps[0]
      case Verb(d) =>
        var arg := VerbArg(d, next, n);
        (if d.verb == 'w' && arg.Some? then [arg.value] else []) + RefWraps(ps[1..], AfterVerb(d, next, n), n)
      case _ => RefWraps(ps[1..], next, n)
  }

  /** The scanner's numbering does not know how many arguments there are. */
  function ScanSize(s: Size, next: nat): nat
    requires WellFormedSize(s)
  {
    match s
    case Absent | Digits(_) => next
    case Star => next + 1
    case IndexedStar(ix) => DecimalValue(ix)
  }

  function ScanSizes(d: Directive, next: nat): nat
    requires WellFormed(d)
  {
    var w := ScanSize(d.width, next);
    if d.precision.Some? then ScanSize(d.precision.value, w) else w
  }

  /** An index right after "%" is held for the verb even when it belongs to a "*" width. */
  function ScannedArg(d: Directive, next: nat): nat
    requires WellFormed(d)
  {
    if d.index.Some? then DecimalValue(d.index.value) - 1
    else if d.flags == "" && d.width.IndexedStar? then DecimalValue(d.width.index) - 1
    else ScanSizes(d, next)
  }

  function ScannedWraps(ps: seq<Piece>, next: nat): seq<nat>
    requires WellFormedPieces(ps)
  {
    if ps == [] then []
    else
      match ps[0]
      case Verb(d) =>
        var arg := ScannedArg(d, next);
        (if d.verb == 'w' then [arg] else []) + ScannedWraps(ps[1..], arg + 1)
      case _ => ScannedWraps(ps[1..], next)
  }

  // The scanner on printed text.

  lemma {:induction false} DigitRunOf(ds: string, t: string)
    requires forall i :: 0 <= i < |ds| ==> IsDigit(ds[i])
    requires t == "" || !IsDigit(t[0])
    ensures DigitRun(ds + t) == |ds|
  {
    if ds == "" {
      assert ds + t == t;
    } else {
      DigitRunOf(ds[1..], t);
      assert (ds + t)[1..] == ds[1..] + t;
    }
  }

  lemma {:induction false} FlagRunOf(fs: string, t: string)
    requires forall i :: 0 <= i < |fs| ==> IsFlag(fs[i])
    requires t == "" || !IsFlag(t[0])
    ensures FlagRun(fs + t) == |fs|
  {
    if fs == "" {
      assert fs + t == t;
    } else {
      FlagRunOf(fs[1..], t);
      assert (fs + t)[1..] == fs[1..] + t;
    }
  }

  lemma ParsePrintedIndex(ix: string, t: string)
    requires IsIndex(ix)
    ensures ParseIndex(PrintIndex(ix) + t) == Some(Index(DecimalValue(ix) - 1, |ix| + 2))
    ensures (PrintIndex(ix) + t)[|ix| + 2..] == t
  {
    hide *;
    IndexText(ix, t);
    ValueOf(ix);
    IndexParsed(PrintIndex(ix) + t, ix);
  }

  lemma IndexParsed(s: string, ix: string)
    requires |s| >= |ix| + 2 && s[0] == '[' && s[1..][..|ix|] == ix && s[|ix| + 1] == ']'
    requires ix != "" && DigitRun(s[1..]) == |ix| && DecimalValue(ix) >= 1
    ensures ParseIndex(s) == Some(Index(DecimalValue(ix) - 1, |ix| + 2))
  {
    hide DecimalValue, DigitRun;
  }

  lemma ValueOf(ix: string)
    requires IsIndex(ix)
    ensures DecimalValue(ix) >= 1 && ix != ""
  {
    hide DecimalValue;
  }

  lemma IndexText(ix: string, t: string)
    requires IsIndex(ix)
    ensures var s := PrintIndex(ix) + t;
            && |s| == |ix| + 2 + |t| && s[0] == '[' && s[1..][..|ix|] == ix && s[|ix| + 1] == ']' && s[|ix| + 2..] == t
            && DigitRun(s[1..]) == |ix|
  {
    hide DecimalValue;
    var s := PrintIndex(ix) + t;
    var u := "]" + t;
    assert s[1..] == ix + u;
    DigitRunOf(ix, u);
  }

  /** Text that can follow a size: not a digit or "*", and any index in front is not for a "*". */
  predicate AfterSizeText(t: string) {
    && t != "" && !IsDigit(t[0]) && t[0] != '*'
    && match ParseIndex(t)
       case Some(ix) => ix.used < |t| && t[ix.used] != '*'
       case None => true
  }

  lemma ConsumePrinted(s: Size, t: string, next: nat)
    requires WellFormedSize(s) && AfterSizeText(t)
    ensures Consume(PrintSize(s) + t, next) == Step(|PrintSize(s)|, ScanSize(s, next))
    ensures (PrintSize(s) + t)[|PrintSize(s)|..] == t
  {
    DropPrefix(PrintSize(s), t);
    match s
    case Absent =>
      assert PrintSize(s) + t == t;
    case Digits(ds) =>
      DigitRunOf(ds, t);
      assert (ds + t)[0] == ds[0];
      hide DigitRun, DecimalValue;
    case Star =>
    case IndexedStar(ix) =>
      hide DigitRun, ParseIndex, DecimalValue;
      ParsePrintedIndex(ix, "*" + t);
      assert PrintSize(s) + t == PrintIndex(ix) + ("*" + t);
  }

  /** The verb, with its index if it has one, and what comes after. */
  lemma VerbText(d: Directive, rest: string)
    requires WellFormed(d)
    ensures var t := PrintVerb(d) + rest;
            && AfterSizeText(t) && t[0] != '.' && !IsFlag(t[0])
            && ParseIndex(t) == (if d.index.Some? then Some(Index(DecimalValue(d.index.value) - 1, |d.index.value| + 2)) else None)
            && t[|PrintVerb(d)| - 1..] == [d.verb] + rest
  {
    var t := PrintVerb(d) + rest;
    if d.index.Some? {
      assert t == PrintIndex(d.index.value) + ([d.verb] + rest);
      ParsePrintedIndex(d.index.value, [d.verb] + rest);
    } else {
      assert PrintVerb(d) == [d.verb] && t[0] == d.verb;
    }
  }

  lemma SizesPrinted(d: Directive, rest: string, next: nat)
    requires WellFormed(d)
    ensures var sizes := PrintSize(d.width) + PrintPrecision(d.precision);
            && Sizes(sizes + (PrintVerb(d) + rest), next) == Step(|sizes|, ScanSizes(d, next))
            && (sizes + (PrintVerb(d) + rest))[|sizes|..] == PrintVerb(d) + rest
  {
    VerbText(d, rest);
    hide Consume, AfterSizeText, ParseIndex, PrintSize, PrintVerb, ScanSize, IsFlag;
    if d.precision.Some? {
      BothSizesPrinted(d, d.precision.value, PrintVerb(d) + rest, next);
    } else {
      WidthPrinted(d, PrintVerb(d) + rest, next);
    }
  }

  lemma WidthPrinted(d: Directive, verb: string, next: nat)
    requires WellFormed(d) && d.precision.None? && AfterSizeText(verb) && verb[0] != '.'
    ensures var sizes := PrintSize(d.width) + PrintPrecision(d.precision);
            Sizes(sizes + verb, next) == Step(|sizes|, ScanSizes(d, next)) && (sizes + verb)[|sizes|..] == verb
  {
    hide Consume, AfterSizeText, ParseIndex, PrintSize, ScanSize;
    assert PrintSize(d.width) + PrintPrecision(d.precision) == PrintSize(d.width);
    ConsumePrinted(d.width, verb, next);
    NotEmpty(verb);
  }

  lemma NotEmpty(t: string)
    requires AfterSizeText(t)
    ensures t != ""
  {
  }

  lemma BothSizesPrinted(d: Directive, p: Size, verb: string, next: nat)
    requires WellFormed(d) && d.precision == Some(p) && AfterSizeText(verb)
    ensures var sizes := PrintSize(d.width) + PrintPrecision(d.precision);
            Sizes(sizes + verb, next) == Step(|sizes|, ScanSizes(d, next)) && (sizes + verb)[|sizes|..] == verb
  {
    hide Consume, AfterSizeText, ParseIndex, PrintSize, ScanSize;
    var sizes := PrintSize(d.width) + PrintPrecision(d.precision);
    var t := "." + (PrintSize(p) + verb);
    DotText(t);
    assert sizes + verb == PrintSize(d.width) + t;
    ConsumePrinted(d.width, t, next);
    assert t[1..] == PrintSize(p) + verb;
    ConsumePrinted(p, verb, ScanSize(d.width, next));
    assert PrintPrecision(d.precision) == "." + PrintSize(p);
    DropPrefix(sizes, verb);
  }

  lemma DotText(t: string)
    requires t != "" && t[0] == '.'
    ensures AfterSizeText(t)
  {
  }

  lemma NotAFlag(d: Directive, rest: string)
    requires WellFormed(d)
    ensures var t := PrintSize(d.width) + PrintPrecision(d.precision) + (PrintVerb(d) + rest);
            t != "" && !IsFlag(t[0])
  {
    hide AfterSizeText, ParseIndex;
    VerbText(d, rest);
  }

  /** Only an index in front of a "*" width or, with nothing in between, of the verb comes first. */
  predicate IndexFirst(d: Directive) {
    d.flags == "" && (d.width.IndexedStar? || (d.width.Absent? && d.precision.None? && d.index.Some?))
  }

  lemma NoIndexFirst(d: Directive, rest: string)
    requires WellFormed(d) && !IndexFirst(d)
    ensures ParseIndex(PrintBody(d) + rest) == None
  {
    hide DecimalValue, DigitRun;
    var s := PrintBody(d) + rest;
    if d.flags != "" {
      assert s[0] == d.flags[0];
    } else if !d.width.Absent? {
      assert s[0] == PrintSize(d.width)[0];
    } else if d.precision.Some? {
      assert s[0] == '.';
    } else {
      assert s[0] == d.verb;
    }
  }

  /** The scan, given what each stage finds and leaves. */
  lemma ScanStages(s: string, lead: Option<Index>, s0: string, flags: nat, s1: string, sizes: Step, s2: string,
      next: nat)
    requires ParseIndex(s) == lead && s0 == s[if lead.Some? then lead.value.used else 0..]
    requires FlagRun(s0) == flags && s1 == s0[flags..]
    requires Sizes(s1, next) == sizes && s2 == s1[sizes.used..]
    ensures var last := ParseIndex(s2);
            ScanDirective(s, next) == Scanned(
              (if lead.Some? then lead.value.used else 0) + flags + sizes.used + if last.Some? then last.value.used else 0,
              if last.Some? then last.value.arg else if lead.Some? then lead.value.arg else sizes.nextArg,
              sizes.nextArg)
  {
    hide ParseIndex, FlagRun, Sizes;
  }

  lemma DropPrefix(a: string, b: string)
    ensures (a + b)[|a|..] == b
  {
  }

  /** Flags, sizes and the verb, when no index comes first. */
  lemma ScanPlain(d: Directive, rest: string, next: nat)
    requires WellFormed(d) && !IndexFirst(d)
    ensures var r := ScanDirective(PrintBody(d) + rest, next);
            r.used == |PrintBody(d)| - 1 && r.arg == ScannedArg(d, next)
  {
    hide ScanDirective, ParseIndex, FlagRun, Sizes, AfterSizeText, DecimalValue, PrintSize, PrintPrecision, PrintVerb;
    var sizes := PrintSize(d.width) + PrintPrecision(d.precision);
    var verb := PrintVerb(d) + rest;
    VerbLength(d);
    var s := PrintBody(d) + rest;
    assert s == d.flags + (sizes + verb);
    NoIndexFirst(d, rest);
    VerbText(d, rest);
    NotAFlag(d, rest);
    FlagRunOf(d.flags, sizes + verb);
    SizesPrinted(d, rest, next);
    DropPrefix(d.flags, sizes + verb);
    DropPrefix(sizes, verb);
    ScanStages(s, None, s, |d.flags|, sizes + verb, Step(|sizes|, ScanSizes(d, next)), verb, next);
  }

  lemma VerbLength(d: Directive)
    ensures |PrintVerb(d)| == 1 + if d.index.Some? then |d.index.value| + 2 else 0
  {
  }

  /** An index for a "*" width right after "%": what follows it is read as a plain "*" width, but
      the index is kept as the verb's unless the verb has one. */
  lemma ScanIndexedWidth(d: Directive, rest: string, next: nat)
    requires WellFormed(d) && d.flags == "" && d.width.IndexedStar?
    ensures var r := ScanDirective(PrintBody(d) + rest, next);
            r.used == |PrintBody(d)| - 1 && r.arg == ScannedArg(d, next)
  {
    var plain := d.(width := Star);
    assert PrintVerb(plain) == PrintVerb(d);
    hide ScanDirective, ParseIndex, FlagRun, Sizes, AfterSizeText, DecimalValue, PrintPrecision, PrintVerb;
    var ix := d.width.index;
    var tail := PrintSize(Star) + PrintPrecision(d.precision);
    var verb := PrintVerb(d) + rest;
    VerbLength(d);
    VerbText(d, rest);
    SizesPrinted(plain, rest, next);
    IndexedWidthText(d, rest);
    hide PrintBody, PrintIndex, PrintSize;
    ScanAfterIndex(ix, tail, verb, next, ScanSizes(plain, next));
  }

  /** An index right after "%", then sizes. */
  lemma ScanAfterIndex(ix: string, sizes: string, tail: string, next: nat, after: nat)
    requires IsIndex(ix) && sizes + tail != "" && !IsFlag((sizes + tail)[0])
    requires Sizes(sizes + tail, next) == Step(|sizes|, after)
    ensures var last := ParseIndex(tail);
            ScanDirective(PrintIndex(ix) + (sizes + tail), next) == Scanned(
              |ix| + 2 + |sizes| + if last.Some? then last.value.used else 0,
              if last.Some? then last.value.arg else DecimalValue(ix) - 1,
              after)
  {
    hide *;
    var t := sizes + tail;
    ValueOf(ix);
    ParsePrintedIndex(ix, t);
    NoFlags(t);
    DropPrefix(sizes, tail);
    ScanStages(PrintIndex(ix) + t, Some(Index(DecimalValue(ix) - 1, |ix| + 2)), t, 0, t, Step(|sizes|, after), tail,
        next);
  }

  lemma NoFlags(t: string)
    requires t != "" && !IsFlag(t[0])
    ensures FlagRun(t) == 0 && t[0..] == t
  {
  }

  lemma IndexedWidthText(d: Directive, rest: string)
    requires d.flags == "" && d.width.IndexedStar?
    ensures var tail := PrintSize(Star) + PrintPrecision(d.precision);
            && PrintBody(d) + rest == PrintIndex(d.width.index) + (tail + (PrintVerb(d) + rest))
            && |PrintBody(d)| == |d.width.index| + 2 + |tail| + |PrintVerb(d)|
  {
    hide PrintPrecision, PrintVerb;
    var ix, p, v := PrintIndex(d.width.index), PrintPrecision(d.precision), PrintVerb(d);
    assert ("*" + p) + (v + rest) == "*" + (p + (v + rest));
    assert d.flags + ((ix + "*") + (p + v)) == ix + ("*" + (p + v));
    assert (ix + ("*" + (p + v))) + rest == ix + ("*" + (p + (v + rest)));
  }

  lemma ScanIndexedVerb(d: Directive, rest: string, next: nat)
    requires WellFormed(d) && d.flags == "" && d.width.Absent? && d.precision.None? && d.index.Some?
    ensures var r := ScanDirective(PrintBody(d) + rest, next);
            r.used == |PrintBody(d)| - 1 && r.arg == ScannedArg(d, next)
  {
    hide ScanDirective, ParseIndex, FlagRun, Sizes, AfterSizeText, DecimalValue;
    var ix := d.index.value;
    var bare := d.(index := None);
    var verb := [d.verb] + rest;
    assert PrintBody(d) + rest == PrintIndex(ix) + verb;
    assert "" + verb == verb;
    VerbText(bare, rest);
    assert PrintVerb(bare) + rest == verb;
    SizesPrinted(bare, rest, next);
    assert PrintSize(bare.width) + PrintPrecision(bare.precision) == "";
    ScanAfterIndex(ix, "", verb, next, ScanSizes(bare, next));
  }

  /** The scanner's reading of one printed directive, for every directive of the grammar. */
  lemma ScanPrinted(d: Directive, rest: string, next: nat)
    requires WellFormed(d)
    ensures var r := ScanDirective(PrintBody(d) + rest, next);
            r.used == |PrintBody(d)| - 1 && r.arg == ScannedArg(d, next)
  {
    hide ScanDirective, PrintBody;
    if !IndexFirst(d) {
      ScanPlain(d, rest, next);
    } else if d.width.IndexedStar? {
      ScanIndexedWidth(d, rest, next);
    } else {
      ScanIndexedVerb(d, rest, next);
    }
  }

  lemma {:induction false} WrapLiteral(t: string, rest: string, next: nat)
    requires '%' !in t
    ensures WrapArgs(t + rest, next) == WrapArgs(rest, next)
  {
    hide WrapArgs;
    if t == "" {
      assert t + rest == rest;
    } else {
      WrapStep(t + rest, next);
      assert (t + rest)[1..] == t[1..] + rest;
      WrapLiteral(t[1..], rest, next);
    }
  }

  lemma WrapVerb(d: Directive, rest: string, next: nat)
    requires WellFormed(d)
    ensures var arg := ScannedArg(d, next);
            WrapArgs(PrintPiece(Verb(d)) + rest, next) == (if d.verb == 'w' then [arg] else []) + WrapArgs(rest, arg + 1)
  {
    hide WrapArgs, ScanDirective;
    var body := PrintBody(d);
    var s := PrintPiece(Verb(d)) + rest;
    assert s[1..] == body + rest && s[0] == '%';
    ScanPrinted(d, rest, next);
    BodyShape(d);
    assert s[1] == body[0];
    assert s[|body|] == d.verb;
    assert s[|body| + 1..] == rest;
    WrapStep(s, next);
  }

  lemma BodyShape(d: Directive)
    requires WellFormed(d)
    ensures PrintBody(d) != "" && PrintBody(d)[0] != '%' && PrintBody(d)[|PrintBody(d)| - 1] == d.verb
  {
  }

  /** The scan of any format of the documented grammar, exactly. */
  lemma {:induction false} ScanOfPrint(ps: seq<Piece>, next: nat)
    requires WellFormedPieces(ps)
    ensures WrapArgs(Print(ps), next) == ScannedWraps(ps, next)
  {
    hide WrapArgs, ScannedArg, PrintBody;
    if ps == [] {
      WrapNothing();
    } else {
      var rest := Print(ps[1..]);
      match ps[0]
      case Literal(t) =>
        WrapLiteral(t, rest, next);
        ScanOfPrint(ps[1..], next);
      case Percent =>
        var s := "%%" + rest;
        WrapStep(s, next);
        assert s[2..] == rest;
        ScanOfPrint(ps[1..], next);
      case Verb(d) =>
        WrapVerb(d, rest, next);
        ScanOfPrint(ps[1..], ScannedArg(d, next) + 1);
    }
  }

  // Agreement.

  /** Every explicit index names one of n arguments. */
  predicate IndexesInRange(d: Directive, n: nat)
    requires WellFormed(d)
  {
    && (d.width.IndexedStar? ==> DecimalValue(d.width.index) <= n)
    && (d.precision.Some? && d.precision.value.IndexedStar? ==> DecimalValue(d.precision.value.index) <= n)
    && (d.index.Some? ==> DecimalValue(d.index.value) <= n)
  }

  /** Not the one form the scanner misreads: "%[k]*" without flags and without an index for the
      verb, except that an indexed precision can bring the two numbers together again. */
  predicate ReadAlike(d: Directive)
    requires WellFormed(d)
  {
    d.flags == "" && d.width.IndexedStar? && d.index.None? ==>
      d.precision.Some? && d.precision.value.IndexedStar? &&
          DecimalValue(d.precision.value.index) == DecimalValue(d.width.index) - 1
  }

  predicate Agreeing(d: Directive, n: nat)
    requires WellFormed(d)
  {
    ReadAlike(d) && IndexesInRange(d, n)
  }

  /** With n arguments, package fmt formats the argument the scanner expects exactly when the
      directive is read alike, all its indexes are in range, and that argument exists. */
  lemma AgreesIff(d: Directive, next: nat, n: nat)
    requires WellFormed(d) && next <= n
    ensures VerbArg(d, next, n) == Some(ScannedArg(d, next)) <==> Agreeing(d, n) && ScannedArg(d, next) < n
  {
    hide DecimalValue;
    IndexesArePositive(d);
  }

  lemma IndexesArePositive(d: Directive)
    requires WellFormed(d)
    ensures d.width.IndexedStar? ==> DecimalValue(d.width.index) >= 1
    ensures d.precision.Some? && d.precision.value.IndexedStar? ==> DecimalValue(d.precision.value.index) >= 1
    ensures d.index.Some? ==> DecimalValue(d.index.value) >= 1
  {
    hide DecimalValue;
  }

  /** One agreeing directive, whether or not its argument exists: package fmt is where the scanner
      is, except that it stops counting at n. */
  lemma AgreeingStep(d: Directive, next: nat, n: nat)
    requires WellFormed(d) && Agreeing(d, n)
    ensures VerbArg(d, Min(next, n), n) == if ScannedArg(d, next) < n then Some(ScannedArg(d, next)) else None
    ensures AfterVerb(d, Min(next, n), n) == Min(ScannedArg(d, next) + 1, n)
  {
    hide DecimalValue;
    IndexesArePositive(d);
  }

  lemma BelowCons(x: nat, xs: seq<nat>, n: nat)
    ensures Below([x] + xs, n) == (if x < n then [x] else []) + Below(xs, n)
  {
    assert ([x] + xs)[1..] == xs;
  }

  predicate AllAgreeing(ps: seq<Piece>, n: nat)
    requires WellFormedPieces(ps)
  {
    forall i :: 0 <= i < |ps| && ps[i].Verb? ==> Agreeing(ps[i].directive, n)
  }

  /** For every format of agreeing directives and every number of arguments, package fmt wraps
      exactly the existing arguments that the scanner finds, in the same order. */
  lemma {:induction false} ScannerAgrees(ps: seq<Piece>, next: nat, n: nat)
    requires WellFormedPieces(ps) && AllAgreeing(ps, n)
    ensures RefWraps(ps, Min(next, n), n) == Below(WrapArgs(Print(ps), next), n)
  {
    ScanOfPrint(ps, next);
    ScannedIsRef(ps, next, n);
  }

  lemma {:induction false} ScannedIsRef(ps: seq<Piece>, next: nat, n: nat)
    requires WellFormedPieces(ps) && AllAgreeing(ps, n)
    ensures RefWraps(ps, Min(next, n), n) == Below(ScannedWraps(ps, next), n)
  {
    hide ScannedArg, VerbArg, AfterVerb, WellFormed, Agreeing, Below, Min;
    if ps == [] {
      BelowAll([], n);
    } else if ps[0].Verb? {
      var d := ps[0].directive;
      var arg := ScannedArg(d, next);
      AgreeingStep(d, next, n);
      ScannedIsRef(ps[1..], arg + 1, n);
      var more := ScannedWraps(ps[1..], arg + 1);
      BelowCons(arg, more, n);
      assert [] + more == more;
    } else {
      ScannedIsRef(ps[1..], next, n);
    }
  }

  /** When package fmt does not format the argument the scanner expects, for whichever of the three
      reasons, the lists differ as soon as a plain %w follows or the verb is w. */
  lemma DisagreementShows(d: Directive, next: nat, n: nat)
    requires WellFormed(d) && next <= n && !(Agreeing(d, n) && ScannedArg(d, next) < n)
    ensures var w := Verb(Directive("", Absent, None, None, 'w'));
            WrapArgs(Print([Verb(d), w]), next) != RefWraps([Verb(d), w], next, n)
  {
    hide *;
    var ps := [Verb(d), Verb(Directive("", Absent, None, None, 'w'))];
    WrapsOfTwo(d, next, n);
    AgreesIff(d, next, n);
    ScanOfPrint(ps, next);
    Elsewhere(d, next, n);
    var a, r := ScannedArg(d, next), AfterVerb(d, next, n);
    var s, t := ScannedWraps(ps, next), RefWraps(ps, next, n);
    if d.verb == 'w' {
      assert s[0] == a && |s| == 2;
    } else {
      assert s == [a + 1];
      assert t == if r < n then [r] else [];
    }
  }

  /** What both find in a directive and a plain %w behind it. */
  lemma WrapsOfTwo(d: Directive, next: nat, n: nat)
    requires WellFormed(d)
    ensures var ps := [Verb(d), Verb(Directive("", Absent, None, None, 'w'))];
            && WellFormedPieces(ps)
            && ScannedWraps(ps, next) == (if d.verb == 'w' then [ScannedArg(d, next)] else []) + [ScannedArg(d, next) + 1]
            && RefWraps(ps, next, n) ==
               (if d.verb == 'w' && VerbArg(d, next, n).Some? then [VerbArg(d, next, n).value] else [])
               + (if AfterVerb(d, next, n) < n then [AfterVerb(d, next, n)] else [])
  {
    var plain := Directive("", Absent, None, None, 'w');
    var ps := [Verb(d), Verb(plain)];
    var a, r := ScannedArg(d, next), AfterVerb(d, next, n);
    assert ps[1..] == [Verb(plain)] && ps[1..][1..] == [];
    assert ScannedWraps(ps[1..], a + 1) == [a + 1];
    assert RefWraps(ps[1..], r, n) == if r < n then [r] else [];
    hide ScannedArg, VerbArg, AfterVerb, WellFormed;
  }

  /** Then the next argument is not the same either, if fmt has one. */
  lemma Elsewhere(d: Directive, next: nat, n: nat)
    requires WellFormed(d) && next <= n && VerbArg(d, next, n) != Some(ScannedArg(d, next))
    ensures AfterVerb(d, next, n) < n ==> AfterVerb(d, next, n) != ScannedArg(d, next) + 1
  {
    hide DecimalValue;
    IndexesArePositive(d);
  }

  /** Without "[" the numbers never repeat: whatever the text, they increase strictly. */
  ghost predicate IncreasingFrom(xs: seq<nat>, low: nat) {
    && (forall i :: 0 <= i < |xs| ==> xs[i] >= low)
    && (forall i, j :: 0 <= i < j < |xs| ==> xs[i] < xs[j])
  }

  lemma {:induction false} IndexFreeIncreases(s: string, next: nat)
    requires '[' !in s
    ensures IncreasingFrom(WrapArgs(s, next), next)
    decreases |s|
  {
    hide WrapArgs, ScanDirective;
    if s == "" {
      WrapNothing();
    } else {
      WrapStep(s, next);
      if s[0] != '%' {
        IndexFreeIncreases(s[1..], next);
      } else if |s| > 1 && s[1] == '%' {
        IndexFreeIncreases(s[2..], next);
      } else if |s| > 1 {
        var d := ScanDirective(s[1..], next);
        IndexFreeScan(s[1..], next);
        if d.used + 1 < |s| {
          var rest := s[d.used + 2..];
          assert '[' !in rest;
          IndexFreeIncreases(rest, if s[d.used + 1] != '%' then d.arg + 1 else d.nextArg);
        }
      }
    }
  }

  lemma IndexFreeScan(s: string, next: nat)
    requires '[' !in s
    ensures var d := ScanDirective(s, next); d.arg == d.nextArg >= next
  {
    hide Sizes, FlagRun;
    forall k: nat | k <= |s|
      ensures ParseIndex(s[k..]).None? && '[' !in s[k..]
    {
    }
    assert s[0..] == s;
    var i := FlagRun(s);
    IndexFreeSizes(s[i..], next);
  }

  lemma IndexFreeSizes(s: string, next: nat)
    requires '[' !in s
    ensures Sizes(s, next).nextArg >= next
  {
  }
}
