/** What the scanner makes of directives, with the characters that matter written out. */
module FmtSyntax {
  import opened FmtDirectives
  import opened FmtNumbering
  import opened FmtReference
  import opened GoStrings
  import opened Options

  const DIGITS := "0123456789"

  /** n in decimal. */
  function Decimal(n: nat): string {
    if n < 10 then [DIGITS[n]] else Decimal(n / 10) + [DIGITS[n % 10]]
  }

  lemma DigitsAreTen(c: char)
    ensures IsDigit(c) <==> c in DIGITS
    ensures forall i :: 0 <= i < 10 ==> IsDigit(DIGITS[i]) && DigitValue(DIGITS[i]) == i
  {
    if IsDigit(c) {
      assert DIGITS[c as int - '0' as int] == c;
    }
  }

  lemma {:induction false} DecimalRoundTrip(n: nat)
    ensures AllDigits(Decimal(n)) && DecimalValue(Decimal(n)) == n
  {
    DigitsAreTen(DIGITS[n % 10]);
    if n < 10 {
      assert Decimal(n)[..0] == "" && Decimal(n)[0] == DIGITS[n];
      assert DecimalValue(Decimal(n)) == 10 * DecimalValue("") + DigitValue(DIGITS[n]);
    } else {
      DecimalRoundTrip(n / 10);
      var front, d := Decimal(n / 10), DIGITS[n % 10];
      assert Decimal(n) == front + [d] && (front + [d])[..|front|] == front && (front + [d])[|front|] == d;
      assert DecimalValue(front + [d]) == 10 * DecimalValue(front) + DigitValue(d);
    }
  }

  /** "[k]" names the k-th argument, counting from one; "[0]" is no index. */
  lemma IndexOf(k: nat, t: string)
    ensures ParseIndex("[" + Decimal(k) + "]" + t) == if k >= 1 then Some(Index(k - 1, |Decimal(k)| + 2)) else None
  {
    DecimalRoundTrip(k);
    var s := "[" + Decimal(k) + "]" + t;
    if k >= 1 {
      hide DecimalValue;
      ParsePrintedIndex(Decimal(k), t);
    } else {
      assert s[1..] == Decimal(k) + ("]" + t);
      DigitRunOf(Decimal(k), "]" + t);
      assert s[1..][..|Decimal(k)|] == Decimal(k);
      hide DecimalValue, DigitRun;
    }
  }

  predicate FlagChars(fs: string) {
    forall i :: 0 <= i < |fs| ==> fs[i] == '#' || fs[i] == '0' || fs[i] == '+' || fs[i] == '-' || fs[i] == ' '
  }

  /** A character that can only be a verb. */
  predicate VerbChar(c: char) {
    && c != '#' && c != '0' && c != '+' && c != '-' && c != ' '
    && c !in DIGITS && c != '*' && c != '.' && c != '[' && c != '%'
  }

  /** A width is a "*", which takes an argument, or a number, or absent. */
  datatype Width = NoWidth | StarWidth | NumberWidth(n: nat)

  function WidthText(w: Width): string {
    match w
    case NoWidth => ""
    case StarWidth => "*"
    case NumberWidth(n) => Decimal(n)
  }

  lemma {:induction false} NoLeadingZero(n: nat)
    requires n >= 1
    ensures Decimal(n)[0] != '0'
  {
    if n >= 10 {
      NoLeadingZero(n / 10);
    }
  }

  function SizeOf(w: Width): Size {
    match w
    case NoWidth => Absent
    case StarWidth => Star
    case NumberWidth(n) => Digits(Decimal(n))
  }

  lemma SizeIs(w: Width, next: nat)
    ensures WellFormedSize(SizeOf(w)) && PrintSize(SizeOf(w)) == WidthText(w)
    ensures ScanSize(SizeOf(w), next) == if w.StarWidth? then next + 1 else next
    ensures !SizeOf(w).IndexedStar?
    ensures w.NumberWidth? && w.n >= 1 ==> SizeOf(w).Digits? && SizeOf(w).digits[0] != '0'
    ensures SizeOf(w).Digits? ==> w.NumberWidth?
  {
    if w.NumberWidth? {
      DecimalRoundTrip(w.n);
      if w.n >= 1 {
        NoLeadingZero(w.n);
      }
    }
    hide DecimalValue, Decimal;
  }

  lemma VerbIs(c: char)
    requires VerbChar(c)
    ensures IsVerb(c)
  {
    DigitsAreTen(c);
  }

  lemma FlagsAre(fs: string)
    requires FlagChars(fs)
    ensures forall i :: 0 <= i < |fs| ==> FmtFlag(fs[i])
  {
  }

  /** A directive without indexes. */
  lemma PlainDirective(d: Directive, next: nat)
    requires d.index.None? && (forall i :: 0 <= i < |d.flags| ==> FmtFlag(d.flags[i])) && IsVerb(d.verb)
    requires WellFormedSize(d.width) && !d.width.IndexedStar? && (d.width.Digits? ==> d.width.digits[0] != '0')
    requires d.precision.Some? ==> WellFormedSize(d.precision.value)
    ensures WellFormed(d)
    ensures var w := ScanSize(d.width, next);
            ScannedArg(d, next) == if d.precision.Some? then ScanSize(d.precision.value, w) else w
  {
    hide DecimalValue, WellFormedSize, ScanSize, FmtFlag, IsVerb;
  }

  /** "%", flags, a width and the verb. */
  function Text(fs: string, w: Width, verb: char): string {
    "%" + fs + WidthText(w) + [verb]
  }

  /** "%", flags, a width, a precision and the verb. */
  function PrecisionText(fs: string, w: Width, p: Width, verb: char): string {
    "%" + fs + WidthText(w) + "." + WidthText(p) + [verb]
  }

  /** The flags are exactly these five: in any number they change nothing, a width is then read, and
      the next other character is the verb. It takes the next argument, after that of a "*". */
  lemma FlagsWidthVerb(fs: string, w: Width, verb: char, rest: string, next: nat, arg: nat)
    requires FlagChars(fs) && VerbChar(verb) && (w.NumberWidth? ==> w.n >= 1)
    requires arg == next + if w.StarWidth? then 1 else 0
    ensures WrapArgs(Text(fs, w, verb) + rest, next) == (if verb == 'w' then [arg] else []) + WrapArgs(rest, arg + 1)
  {
    hide *;
    var d := Directive(fs, SizeOf(w), None, None, verb);
    SizeIs(w, next);
    VerbIs(verb);
    FlagsAre(fs);
    PlainDirective(d, next);
    TextIsPrinted(d, w);
    WrapVerb(d, rest, next);
  }

  lemma TextIsPrinted(d: Directive, w: Width)
    requires d.precision.None? && d.index.None? && PrintSize(d.width) == WidthText(w)
    ensures PrintPiece(Verb(d)) == Text(d.flags, w, d.verb)
  {
    hide PrintSize, WidthText;
    var width := PrintSize(d.width);
    assert "" + ("" + [d.verb]) == [d.verb];
    assert "%" + (d.flags + (width + [d.verb])) == "%" + d.flags + width + [d.verb];
  }

  /** The same with a precision. */
  lemma FlagsPrecisionVerb(fs: string, w: Width, p: Width, verb: char, rest: string, next: nat, arg: nat)
    requires FlagChars(fs) && VerbChar(verb) && (w.NumberWidth? ==> w.n >= 1)
    requires arg == next + (if w.StarWidth? then 1 else 0) + (if p.StarWidth? then 1 else 0)
    ensures WrapArgs(PrecisionText(fs, w, p, verb) + rest, next) == (if verb == 'w' then [arg] else []) + WrapArgs(rest, arg + 1)
  {
    hide *;
    var d := Directive(fs, SizeOf(w), Some(SizeOf(p)), None, verb);
    SizeIs(w, next);
    SizeIs(p, ScanSize(SizeOf(w), next));
    VerbIs(verb);
    FlagsAre(fs);
    PlainDirective(d, next);
    PrecisionIsPrinted(d, w, p);
    WrapVerb(d, rest, next);
  }

  lemma PrecisionIsPrinted(d: Directive, w: Width, p: Width)
    requires d.precision.Some? && d.index.None?
    requires PrintSize(d.width) == WidthText(w) && PrintSize(d.precision.value) == WidthText(p)
    ensures PrintPiece(Verb(d)) == PrecisionText(d.flags, w, p, d.verb)
  {
    hide PrintSize, WidthText;
    var width, precision := PrintSize(d.width), PrintSize(d.precision.value);
    assert "" + [d.verb] == [d.verb];
    assert "%" + (d.flags + (width + (("." + precision) + [d.verb]))) == "%" + d.flags + width + "." + precision + [d.verb];
  }

  /** "%", flags, the index k and the verb. */
  function IndexText(fs: string, k: nat, verb: char): string {
    "%" + fs + ("[" + Decimal(k) + "]") + [verb]
  }

  /** An index in front of the verb names its argument, and the one behind that is next. */
  lemma FlagsIndexVerb(fs: string, k: nat, verb: char, rest: string, next: nat)
    requires FlagChars(fs) && VerbChar(verb) && k >= 1
    ensures WrapArgs(IndexText(fs, k, verb) + rest, next) == (if verb == 'w' then [k - 1] else []) + WrapArgs(rest, k)
  {
    hide *;
    var d := Directive(fs, Absent, None, Some(Decimal(k)), verb);
    DecimalRoundTrip(k);
    VerbIs(verb);
    FlagsAre(fs);
    IndexedDirective(d, k, next);
    IndexIsPrinted(d, k);
    WrapVerb(d, rest, next);
  }

  lemma IndexedDirective(d: Directive, k: nat, next: nat)
    requires d.width.Absent? && d.precision.None? && d.index == Some(Decimal(k)) && k >= 1
    requires (forall i :: 0 <= i < |d.flags| ==> FmtFlag(d.flags[i])) && IsVerb(d.verb)
    requires AllDigits(Decimal(k)) && DecimalValue(Decimal(k)) == k
    ensures WellFormed(d) && ScannedArg(d, next) == k - 1
  {
    hide DecimalValue, Decimal, FmtFlag, IsVerb, AllDigits;
  }

  lemma IndexIsPrinted(d: Directive, k: nat)
    requires d.width.Absent? && d.precision.None? && d.index == Some(Decimal(k))
    ensures PrintPiece(Verb(d)) == IndexText(d.flags, k, d.verb)
  {
    hide Decimal;
    var ix := "[" + Decimal(k) + "]";
    assert "" + ("" + (ix + [d.verb])) == ix + [d.verb];
    assert "%" + (d.flags + (ix + [d.verb])) == "%" + d.flags + ix + [d.verb];
  }

  /** And the text around directives: anything but "%" is passed over, and "%%" is. */
  lemma OtherText(t: string, rest: string, next: nat)
    requires '%' !in t
    ensures WrapArgs(t + rest, next) == WrapArgs(rest, next) == WrapArgs("%%" + rest, next)
    ensures WrapArgs("", next) == [] == WrapArgs("%", next)
  {
    hide ScanDirective;
    WrapLiteral(t, rest, next);
    assert ("%%" + rest)[2..] == rest && ("%%" + rest)[1] == '%';
  }
}
