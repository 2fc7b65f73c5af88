/** Calls of fmt.Errorf that the discount accepts although package fmt does not wrap the checked
    error, one family for each way a format can be misread. */
module FormatGaps {
  import opened BudgetLaws
  import opened FmtAgreement
  import opened FmtDirectives
  import opened FmtNumbering
  import opened FmtPrinted
  import opened FmtReference
  import opened GoStrings
  import opened LogicBudget
  import opened Options

  lemma CallOf(text: string, args: seq<Node>)
    ensures var all := [StringLit(text, false)] + args;
            |all| - 1 == |args| && all[0] == StringLit(text, false) && forall k :: 0 <= k < |args| ==> all[k + 1] == args[k]
  {
  }

  /** What the code reads from one argument and package fmt from another. */
  lemma WrapsAnother(text: string, args: seq<Node>, i: nat, j: nat, errName: string)
    requires i < |args| && j < |args| && args[i] == Ident(errName) && !CarrierArg(args[j], errName)
    requires WrapArgs(text, 0) == [i] && FmtWraps(text, 0, |args|) == [j]
    ensures var call := Call("fmt.Errorf", OtherExpr([]), [StringLit(text, false)] + args);
            ErrorfWraps(call, errName) && !FormatCarries(call, errName)
  {
    hide WrapArgs, FmtWraps, CarrierArg;
    CallOf(text, args);
    assert [j][0] == j;
  }

  /** "%[k]*w", where the width belongs to the index: with the checked error as argument k, package
      fmt wraps the one behind it. */
  lemma MisreadWidthIsAccepted(ix: string, args: seq<Node>, errName: string)
    requires IsIndex(ix) && DecimalValue(ix) < |args| && !TooLarge(DecimalValue(ix))
    requires args[DecimalValue(ix) - 1] == Ident(errName) && !CarrierArg(args[DecimalValue(ix)], errName)
    ensures var call := Call("fmt.Errorf", OtherExpr([]), [StringLit("%" + (PrintIndex(ix) + "*w"), false)] + args);
            ErrorfWraps(call, errName) && !FormatCarries(call, errName)
  {
    hide *;
    var t, k := PrintIndex(ix) + "*w", DecimalValue(ix);
    ValueOf(ix);
    StarIndexParts(ix);
    StarIndexWraps(t, Index(k - 1, |ix| + 2), |args|);
    WrapsAnother("%" + t, args, k - 1, k, errName);
  }

  lemma StarIndexWraps(t: string, ix: Index, n: nat)
    requires t != "" && t[|t| - 1] == 'w' && PartsOf(t) == Parts(Some(ix), 0, StarText, Tail(None, None, 0), |t| - 1)
    requires ix.arg + 1 < n && !TooLarge(ix.arg + 1)
    ensures WrapArgs("%" + t, 0) == [ix.arg] && FmtWraps("%" + t, 0, n) == [ix.arg + 1]
  {
    hide WrapArgs, FmtWraps, PartsOf, ReadDirective, TooLarge;
    SingleWrapIff(t, 0, n);
    DirectiveRead(t, 0, n);
    SingleRead(t, 0, n);
  }

  lemma StarIndexParts(ix: string)
    requires IsIndex(ix)
    ensures var t := PrintIndex(ix) + "*w";
            && |t| == |ix| + 4 && t[|t| - 1] == 'w'
            && PartsOf(t) == Parts(Some(Index(DecimalValue(ix) - 1, |ix| + 2)), 0, StarText, Tail(None, None, 0), |ix| + 3)
  {
    var t := PrintIndex(ix) + "*w";
    ParsePrintedIndex(ix, "*w");
    hide DecimalValue, IsIndex;
    assert t[|ix| + 2..] == "*w" && t[|ix| + 3..] == "w" && "*w"[0] == '*' && "*w"[0..] == "*w" && "*w"[1..] == "w";
    StarRead("*w");
    VerbOnly();
    hide ParseIndex, FlagRun, SizeAt, TailOf;
  }

  lemma VerbOnly()
    ensures SizeAt("w") == NoSize && "w"[0..] == "w" && TailOf("w") == Tail(None, None, 0)
  {
    assert ParseIndex("w").None? && DigitRun("w") == 0 && "w"[0..] == "w";
  }

  /** "%[k]5w", for every index and every width: package fmt marks a bad index and wraps nothing,
      whatever the arguments. */
  lemma MisplacedIndexIsAccepted(ix: string, ds: string, args: seq<Node>, errName: string)
    requires IsIndex(ix) && AllDigits(ds) && DecimalValue(ix) <= |args| && args[DecimalValue(ix) - 1] == Ident(errName)
    ensures var text := "%" + (PrintIndex(ix) + (ds + "w"));
            var call := Call("fmt.Errorf", OtherExpr([]), [StringLit(text, false)] + args);
            && ErrorfWraps(call, errName) && !FormatCarries(call, errName)
            && FmtWraps(text, 0, |args|) == []
  {
    var t := PrintIndex(ix) + (ds + "w");
    DigitIndexParts(ix, ds);
    hide WrapArgs, FmtWraps, PartsOf, DecimalValue, PrintIndex, Readable, FormatCarries, ErrorfWraps;
    SingleWrapIff(t, 0, |args|);
    UnreadableIsAccepted(t, args, errName);
  }

  lemma DigitIndexParts(ix: string, ds: string)
    requires IsIndex(ix) && AllDigits(ds)
    ensures var t := PrintIndex(ix) + (ds + "w");
            var p := PartsOf(t);
            && p.verbAt + 1 == |t| && t[|t| - 1] == 'w' && !Readable(p, 'w')
            && p.lead == Some(Index(DecimalValue(ix) - 1, |ix| + 2)) && p.tail.last == None
  {
    var t, s0 := PrintIndex(ix) + (ds + "w"), ds + "w";
    ParsePrintedIndex(ix, s0);
    DigitsThenVerb(ds);
    hide DecimalValue, IsIndex, ParseIndex, FlagRun, SizeAt, TailOf, TailReadable, AllDigits;
    assert t[|t| - 1] == s0[|s0| - 1];
    LeadParts(t);
  }

  /** Leading zeros are flags, the other digits a width; there is one or the other. */
  lemma DigitsThenVerb(ds: string)
    requires AllDigits(ds)
    ensures var s := ds + "w";
            var f := FlagRun(s);
            var z := SizeAt(s[f..]);
            && f + SizeUsed(z) == |ds| && TailOf(s[f..][SizeUsed(z)..]) == Tail(None, None, 0)
            && !z.StarText? && (f > 0 || !z.NoSize?)
  {
    FlagsBeforeVerb(ds);
    var s := ds + "w";
    var f := FlagRun(s);
    var rest := ds[f..];
    assert s[f..] == rest + "w";
    assert forall i :: 0 <= i < |rest| ==> IsDigit(rest[i]) by {
      assert forall i :: 0 <= i < |rest| ==> rest[i] == ds[f + i];
    }
    assert rest == "" ==> f > 0;
    hide *;
    VerbOnly();
    if rest == "" {
      assert rest + "w" == "w";
      NothingUsed();
    } else {
      SizeOfDigits(rest);
    }
  }

  lemma NothingUsed()
    ensures SizeUsed(NoSize) == 0
  {
  }

  lemma SizeOfDigits(ds: string)
    requires ds != "" && forall i :: 0 <= i < |ds| ==> IsDigit(ds[i])
    ensures SizeAt(ds + "w") == DigitsText(DecimalValue(ds), |ds|) && SizeUsed(SizeAt(ds + "w")) == |ds|
    ensures (ds + "w")[|ds|..] == "w"
  {
    var s := ds + "w";
    assert s[0] == ds[0] && s[..|ds|] == ds;
    DigitRunOf(ds, "w");
    hide DecimalValue, DigitRun;
  }

  lemma {:induction false} FlagsBeforeVerb(ds: string)
    ensures FlagRun(ds + "w") <= |ds|
  {
    if ds == "" {
      assert ds + "w" == "w" && !IsFlag("w"[0]);
    } else {
      assert (ds + "w")[1..] == ds[1..] + "w";
      FlagsBeforeVerb(ds[1..]);
    }
  }

  /** An index that is out of range anywhere in a directive: "%[9]*[1]w" and the like. */
  lemma BadIndexIsAccepted(t: string, args: seq<Node>, errName: string)
    requires PartsOf(t).verbAt + 1 == |t| && t[|t| - 1] == 'w' && !InRange(PartsOf(t), |args|)
    requires var k := ScanArg(PartsOf(t), 0); k < |args| && args[k] == Ident(errName)
    ensures var call := Call("fmt.Errorf", OtherExpr([]), [StringLit("%" + t, false)] + args);
            && ErrorfWraps(call, errName) && !FormatCarries(call, errName)
            && FmtWraps("%" + t, 0, |args|) == []
  {
    hide WrapArgs, FmtWraps, PartsOf, FormatCarries, ErrorfWraps, InRange;
    SingleWrapIff(t, 0, |args|);
    UnreadableIsAccepted(t, args, errName);
  }

  /** A width from argument k, whatever its number, in a directive for argument 1. */
  lemma BadIndexSample(ix: string, n: nat)
    requires IsIndex(ix) && DecimalValue(ix) > n >= 1
    ensures var p := PartsOf(PrintIndex(ix) + ("*" + (PrintIndex("1") + "w")));
            && p.verbAt == |ix| + 6 && p.tail.last == Some(Index(0, 3)) && p.lead == Some(Index(DecimalValue(ix) - 1, |ix| + 2))
            && ScanArg(p, 0) == 0 && !InRange(p, n)
  {
    var one := PrintIndex("1") + "w";
    var s0 := "*" + one;
    OneDigit("1");
    ParsePrintedIndex(ix, s0);
    ParsePrintedIndex("1", "w");
    assert s0[0] == '*' && s0[0..] == s0 && s0[1..] == one && one[0..] == one && one[0] == '[';
    hide *;
    StarRead(s0);
    LeadParts(PrintIndex(ix) + s0);
    IndexThenVerb(one);
    StarUsed();
    ValueOf(ix);
    OutOfRange(PartsOf(PrintIndex(ix) + s0), n);
  }

  lemma StarUsed()
    ensures SizeUsed(StarText) == 1
  {
  }

  lemma IndexThenVerb(s: string)
    requires s != "" && s[0] == '[' && s[0..] == s && ParseIndex(s).Some?
    ensures TailOf(s) == Tail(None, ParseIndex(s), ParseIndex(s).value.used)
  {
    hide ParseIndex;
  }

  lemma OutOfRange(p: Parts, n: nat)
    ensures p.lead.Some? && p.lead.value.arg >= n ==> !InRange(p, n)
    ensures p.tail.last.Some? ==> ScanArg(p, 0) == p.tail.last.value.arg
  {
  }

  lemma OneDigit(d: string)
    requires |d| == 1 && '1' <= d[0] <= '9'
    ensures IsIndex(d) && DecimalValue(d) == d[0] as int - '0' as int
  {
    assert d[..0] == "";
    assert DecimalValue(d) == 10 * DecimalValue("") + DigitValue(d[0]);
  }

  /** A plain "%w" behind text that has been read. */
  lemma PlainWrap(next: nat, n: nat)
    ensures WrapArgs("%w", next) == [next] && FmtWraps("%w", next, n) == if next < n then [next] else []
  {
    var t := "w";
    assert "%" + t == "%w";
    VerbOnly();
    assert t[0] == 'w' && t[0..] == t && FlagRun(t) == 0 && ParseIndex(t).None?;
    hide *;
    PlainParts(t);
    PlainWrapOf(t, next, n);
  }

  lemma PlainParts(t: string)
    requires t[0..] == t && FlagRun(t) == 0 && ParseIndex(t).None? && SizeAt(t) == NoSize && TailOf(t) == Tail(None, None, 0)
    ensures PartsOf(t) == Parts(None, 0, NoSize, Tail(None, None, 0), 0)
  {
    hide ParseIndex, FlagRun, SizeAt, TailOf;
  }

  lemma PlainWrapOf(t: string, next: nat, n: nat)
    requires t == "w" && PartsOf(t) == Parts(None, 0, NoSize, Tail(None, None, 0), 0)
    ensures WrapArgs("%" + t, next) == [next] && FmtWraps("%" + t, next, n) == if next < n then [next] else []
  {
    assert t[0] == 'w';
    PlainRead(t, next, n);
    hide WrapArgs, FmtWraps, PartsOf, ReadDirective;
    SingleWrapIff(t, next, n);
    SingleRead(t, next, n);
  }

  lemma PlainRead(t: string, next: nat, n: nat)
    requires t != "" && !IsFlag(t[0]) && !IsDigit(t[0]) && t[0] != '[' && t[0] != '*' && t[0] != '.'
    ensures ReadDirective(t, next, n) == State(next, true, false, 0)
  {
    assert FlagRun(t) == 0 && t[0..] == t;
    NumberRead(t);
  }

  /** "%[0]d %w", and any other spelling of the index zero: the scanner takes "[" for the verb and
      moves on, package fmt does not. */
  lemma ZeroIndexIsAccepted(zs: string, args: seq<Node>, errName: string)
    requires AllDigits(zs) && DecimalValue(zs) == 0
    requires |args| >= 2 && args[1] == Ident(errName) && !CarrierArg(args[0], errName)
    ensures var text := "%" + (("[" + zs + "]") + "d %w");
            var call := Call("fmt.Errorf", OtherExpr([]), [StringLit(text, false)] + args);
            ErrorfWraps(call, errName) && !FormatCarries(call, errName)
  {
    hide *;
    ZeroScanned(zs);
    ZeroRead(zs, |args|);
    WrapsAnother("%" + (("[" + zs + "]") + "d %w"), args, 1, 0, errName);
  }

  lemma ZeroScanned(zs: string)
    requires AllDigits(zs) && DecimalValue(zs) == 0
    ensures WrapArgs("%" + (("[" + zs + "]") + "d %w"), 0) == [1]
  {
    hide *;
    var rest := zs + "]d ";
    var t := "[" + (rest + "%w");
    ZeroText(zs);
    ZeroIsNoIndex(zs, "d %w");
    BracketVerb(t);
    PlainWrap(1, 0);
    WrapLiteral(rest, "%w", 1);
    ScannedBracket("%" + t, rest + "%w");
  }

  lemma ZeroText(zs: string)
    requires AllDigits(zs)
    ensures ("[" + zs + "]") + "d %w" == "[" + ((zs + "]d ") + "%w") && '%' !in zs + "]d "
    ensures var t := "[" + ((zs + "]d ") + "%w");
            var s := "%" + t;
            t != "" && t[0] == '[' && s[0] == '%' && s[1] == '[' && s[1..] == t && s[2..] == (zs + "]d ") + "%w"
  {
    hide DecimalValue;
    assert "]d " + "%w" == "]" + "d %w";
    assert (zs + "]d ") + "%w" == zs + ("]d " + "%w");
    assert forall i :: 0 <= i < |zs| ==> zs[i] != '%';
  }

  lemma ZeroIsNoIndex(zs: string, u: string)
    requires AllDigits(zs) && DecimalValue(zs) == 0
    ensures ParseIndex(("[" + zs + "]") + u).None?
  {
    var t := ("[" + zs + "]") + u;
    assert t[1..] == zs + ("]" + u);
    DigitRunOf(zs, "]" + u);
    assert t[1..][..|zs|] == zs;
    hide DecimalValue, DigitRun;
  }

  /** A "[" that is not an index is the verb for the scanner. */
  lemma BracketVerb(t: string)
    requires t != "" && t[0] == '[' && ParseIndex(t).None?
    ensures ScanDirective(t, 0) == Scanned(0, 0, 0)
  {
    assert t[0..] == t && FlagRun(t) == 0 && DigitRun(t) == 0;
    hide ParseIndex, FlagRun, DigitRun;
  }

  lemma ScannedBracket(s: string, rest: string)
    requires |s| >= 2 && s[0] == '%' && s[1] == '[' && s[2..] == rest && ScanDirective(s[1..], 0) == Scanned(0, 0, 0)
    ensures WrapArgs(s, 0) == WrapArgs(rest, 1)
  {
    hide WrapArgs, ScanDirective;
    WrapStep(s, 0);
    assert [] + WrapArgs(rest, 1) == WrapArgs(rest, 1);
  }

  lemma ZeroRead(zs: string, n: nat)
    requires AllDigits(zs) && DecimalValue(zs) == 0 && n >= 1
    ensures FmtWraps("%" + (("[" + zs + "]") + "d %w"), 0, n) == [0]
  {
    hide *;
    var t := ("[" + zs + "]") + "d %w";
    ZeroBracket(zs, "d %w");
    Behind(zs, "d %w");
    ZeroDirective(t, |zs| + 2, n);
    PlainWrap(0, n);
    LiteralRead(" ", "%w", 0, n);
    ZeroStep(t, |zs| + 2, n);
  }

  lemma Behind(zs: string, u: string)
    ensures (("[" + zs + "]") + u)[|zs| + 2..] == u && |("[" + zs + "]") + u| == |zs| + 2 + |u|
  {
  }

  lemma ZeroBracket(zs: string, u: string)
    requires AllDigits(zs) && DecimalValue(zs) == 0
    ensures var t := ("[" + zs + "]") + u;
            t != "" && t[0] == '[' && ParseBracket(t) == Bracket(0, |zs| + 2, true)
  {
    hide *;
    var t := ("[" + zs + "]") + u;
    ZeroShape(zs, u);
    NoClose(t, zs);
    CloseAfterDigits(t, |zs| + 1);
    ZeroNumber(zs);
    BracketParsed(t, zs, 0);
  }

  lemma ZeroShape(zs: string, u: string)
    requires AllDigits(zs)
    ensures var t := ("[" + zs + "]") + u;
            |t| == |zs| + 2 + |u| && t[0] == '[' && t[|zs| + 1] == ']' && t[1..|zs| + 1] == zs && zs != ""
  {
    hide IsDigit;
    assert ("[" + zs + "]")[|zs| + 1] == ']';
  }

  lemma NoClose(t: string, zs: string)
    requires AllDigits(zs) && |t| >= |zs| + 2 && t[0] == '[' && t[1..|zs| + 1] == zs
    ensures forall i :: 0 <= i < |zs| + 1 ==> t[i] != ']'
  {
    forall i | 1 <= i < |zs| + 1
      ensures t[i] != ']'
    {
      assert t[i] == t[1..|zs| + 1][i - 1] == zs[i - 1];
      assert IsDigit(zs[i - 1]);
    }
  }

  lemma ZeroNumber(zs: string)
    requires AllDigits(zs) && DecimalValue(zs) == 0
    ensures ParseNumber(zs) == Number(0, true, |zs|)
  {
    DigitRunIs(zs, |zs|);
    assert zs[..|zs|] == zs;
    hide DecimalValue, DigitRun;
  }

  lemma BracketParsed(t: string, ds: string, v: nat)
    requires |t| >= |ds| + 2 && t[0] == '[' && ds != "" && CloseAt(t) == |ds| + 1 && t[1..|ds| + 1] == ds
    requires ParseNumber(ds) == Number(v, true, |ds|)
    ensures ParseBracket(t) == Bracket(v, |ds| + 2, true)
  {
    hide ParseNumber, CloseAt;
  }

  lemma ZeroDirective(t: string, k: nat, n: nat)
    requires t != "" && t[0] == '[' && ParseBracket(t) == Bracket(0, k, true) && k < |t| && t[k..] == "d %w"
    ensures ReadDirective(t, 0, n) == State(0, false, true, k)
  {
    assert FlagRun(t) == 0 && t[0..] == t;
    assert ReadIndex(t, 0, n) == State(0, false, true, k);
    assert "d %w"[0] == 'd';
    NumberRead("d %w");
    hide ParseBracket, FlagRun, ReadIndex, ParseNumber;
    assert ReadSize(t, 0, n, true) == State(0, false, true, k);
    TailBehindIndex("d %w", State(0, false, true, k), n);
  }

  lemma AfterPercent(t: string, k: nat, u: string)
    requires k < |t| && t[k..] == u
    ensures var s := "%" + t; s[0] == '%' && s[1..] == t && s[k + 1] == u[0] && s[k + 2..] == u[1..]
  {
  }

  lemma ZeroStep(t: string, k: nat, n: nat)
    requires ReadDirective(t, 0, n) == State(0, false, true, k) && k < |t| && t[k..] == "d %w"
    requires FmtWraps(" " + "%w", 0, n) == [0]
    ensures FmtWraps("%" + t, 0, n) == [0]
  {
    hide FmtWraps, ReadDirective;
    var s := "%" + t;
    AfterPercent(t, k, "d %w");
    assert "d %w"[0] == 'd' && "d %w"[1..] == " " + "%w";
    FmtStep(s, 0, n);
  }

  /** "%[2]%%w", for every index above one: package fmt goes on from that argument, the scanner from
      where it was. */
  lemma PercentIndexIsAccepted(ix: string, args: seq<Node>, errName: string)
    requires IsIndex(ix) && !TooLarge(DecimalValue(ix)) && 2 <= DecimalValue(ix) <= |args|
    requires args[0] == Ident(errName) && !CarrierArg(args[DecimalValue(ix) - 1], errName)
    ensures var text := "%" + (PrintIndex(ix) + "%%w");
            var call := Call("fmt.Errorf", OtherExpr([]), [StringLit(text, false)] + args);
            ErrorfWraps(call, errName) && !FormatCarries(call, errName)
  {
    hide *;
    ValueOf(ix);
    PercentBehindIndex(ix, |args|);
    WrapsAnother("%" + (PrintIndex(ix) + "%%w"), args, 0, DecimalValue(ix) - 1, errName);
  }

  lemma PercentBehindIndex(ix: string, n: nat)
    requires IsIndex(ix) && !TooLarge(DecimalValue(ix)) && 2 <= DecimalValue(ix) <= n
    ensures var text := "%" + (PrintIndex(ix) + "%%w");
            WrapArgs(text, 0) == [0] && FmtWraps(text, 0, n) == [DecimalValue(ix) - 1]
  {
    hide *;
    var t, k := PrintIndex(ix) + "%%w", DecimalValue(ix) - 1;
    ValueOf(ix);
    ParsePrintedIndex(ix, "%%w");
    PercentText();
    LeadText(t);
    NotIndexed(t);
    LeadParts(t);
    FitsHere(Index(k, |ix| + 2), n);
    ReadBehindIndex(t, 0, n);
    ScanIsParts(t, 0);
    NothingRead();
    StartsWithIndex(t);
    PercentScan(t, |ix| + 2, k);
    PercentFmt(t, |ix| + 2, k, n);
  }

  lemma PercentText()
    ensures "%%w"[0] == '%' && "%%w"[1..] == "%w" && FlagRun("%%w") == 0 && "%%w"[0..] == "%%w"
    ensures SizeAt("%%w") == NoSize && TailOf("%%w") == Tail(None, None, 0)
    ensures !IsDigit('%')
  {
    assert "%%w"[0..] == "%%w" && ParseIndex("%%w").None? && DigitRun("%%w") == 0;
  }

  lemma NotIndexed(t: string)
    requires ParseIndex(t).Some? && t[ParseIndex(t).value.used..] != "" && t[ParseIndex(t).value.used..][0] == '%'
    ensures !SizeAt(t).IndexedText?
  {
    hide ParseIndex;
  }

  lemma FitsHere(ix: Index, n: nat)
    requires ix.arg < n && !TooLarge(ix.arg + 1)
    ensures Fits(ix, n)
  {
  }

  lemma NothingRead()
    ensures SizeUsed(NoSize) == 0 && SizeNext(NoSize, 0) == 0
  {
  }

  lemma PercentScan(t: string, m: nat, k: nat)
    requires m < |t| && t[0] == '[' && t[m..] == "%%w"
    requires PartsOf(t) == Parts(Some(Index(k, m)), 0, NoSize, Tail(None, None, 0), m)
    requires ScanDirective(t, 0) == Scanned(PartsOf(t).verbAt, ScanArg(PartsOf(t), 0), ScanNext(PartsOf(t), 0))
    ensures WrapArgs("%" + t, 0) == [0]
  {
    hide WrapArgs, ScanDirective, PartsOf, FmtWraps;
    PlainWrap(0, 0);
    var s := "%" + t;
    assert s[1..] == t && s[m + 1] == t[m] == "%%w"[0] && s[m + 2..] == t[m..][1..] == "%w";
    WrapStep(s, 0);
    assert [] + WrapArgs("%w", 0) == WrapArgs("%w", 0);
  }

  lemma PercentFmt(t: string, m: nat, k: nat, n: nat)
    requires m < |t| && t[m..] == "%%w" && k < n
    requires var r := ReadDirective(t, 0, n); r.good && r.used == m && r.next == k
    ensures FmtWraps("%" + t, 0, n) == [k]
  {
    hide WrapArgs, ReadDirective, FmtWraps;
    PlainWrap(k, n);
    var s := "%" + t;
    assert s[1..] == t && s[m + 1] == t[m] == "%%w"[0] && s[m + 2..] == t[m..][1..] == "%w";
    FmtStep(s, 0, n);
  }

  /** That the checked name is an error is not looked at: a plain "%w" of anything else is accepted
      and wraps nothing. */
  lemma NonErrorIsAccepted(env: Env, name: string)
    requires !env.value(name).ErrValue?
    ensures var call := Call("fmt.Errorf", OtherExpr([]), [StringLit("%w", false)] + [Ident(name)]);
            IsErrorPropagationExpr(call, name) && Eval(env, call) == ErrValue(Wrapping([]))
  {
    hide WrapArgs, FmtWraps, ErrorsAt;
    PlainWrap(0, 1);
    CallOf("%w", [Ident(name)]);
    NonErrorAt(env, [StringLit("%w", false)] + [Ident(name)], 0, name);
    assert [0][0] == 0;
  }

  lemma NonErrorAt(env: Env, args: seq<Node>, k: nat, name: string)
    requires k + 1 < |args| && args[k + 1] == Ident(name) && !env.value(name).ErrValue?
    ensures ErrorsAt(env, args, [k]) == []
  {
    assert [k][1..] == [];
    assert ErrorsAt(env, args, []) == [];
  }
}
