/** The hand-written scanner that finds which arguments of fmt.Errorf the %w directives take, and
    how it compares with the numbering that package fmt documents. */
module FmtDirectives {
  import opened GoStrings
  import opened Options

  predicate IsFlag(c: char) {
    c == '#' || c == '0' || c == '+' || c == '-' || c == ' '
  }

  /** strconv.Atoi, which is only called on digits. */
  function DecimalValue(ds: string): nat {
    if ds == "" then 0 else 10 * DecimalValue(ds[..|ds| - 1]) + DigitValue(ds[|ds| - 1])
  }

  function DigitValue(c: char): nat {
    if IsDigit(c) then c as int - '0' as int else 0
  }

  // The scanner as functions of the text still to be read.

  function DigitRun(s: string): (n: nat)
    ensures n <= |s|
  {
    if s != "" && IsDigit(s[0]) then 1 + DigitRun(s[1..]) else 0
  }

  function FlagRun(s: string): (n: nat)
    ensures n <= |s|
  {
    if s != "" && IsFlag(s[0]) then 1 + FlagRun(s[1..]) else 0
  }

  /** An explicit index "[n]": its zero-based argument and its length. */
  datatype Index = Index(arg: nat, used: nat)

  function ParseIndex(s: string): (r: Option<Index>)
    ensures r.Some? ==> 3 <= r.value.used <= |s|
  {
    if s == "" || s[0] != '[' then None
    else
      var n := DigitRun(s[1..]);
      if n == 0 || n + 1 >= |s| || s[n + 1] != ']' then None
      else
        var v := DecimalValue(s[1..][..n]);
        if v == 0 then None else Some(Index(v - 1, n + 2))
  }

  datatype Step = Step(used: nat, nextArg: nat)

  /** A width or a precision: "*", "[n]*" or digits. An index that no "*" follows is left. */
  function Consume(s: string, nextArg: nat): (r: Step)
    ensures r.used <= |s|
  {
    match ParseIndex(s)
    case Some(ix) =>
      if ix.used < |s| && s[ix.used] == '*' then Step(ix.used + 1, ix.arg + 1) else Step(0, nextArg)
    case None =>
      if s != "" && s[0] == '*' then Step(1, nextArg + 1) else Step(DigitRun(s), nextArg)
  }

  /** What is known when the verb is reached: its offset, its argument, and the next argument
      as widths and precisions left it. */
  datatype Scanned = Scanned(used: nat, arg: nat, nextArg: nat)

  /** A width, then a precision if there is a ".". */
  function Sizes(s: string, nextArg: nat): (r: Step)
    ensures r.used <= |s|
  {
    var width := Consume(s, nextArg);
    var t := s[width.used..];
    if t != "" && t[0] == '.' then
      var prec := Consume(t[1..], width.nextArg);
      Step(width.used + 1 + prec.used, prec.nextArg)
    else width
  }

  function ScanDirective(s: string, nextArg: nat): (r: Scanned)
    ensures r.used <= |s|
  {
    var lead := ParseIndex(s);
    var n0 := if lead.Some? then lead.value.used else 0;
    var s0 := s[n0..];
    var n1 := FlagRun(s0);
    var s1 := s0[n1..];
    var sizes := Sizes(s1, nextArg);
    var last := ParseIndex(s1[sizes.used..]);
    var n3 := if last.Some? then last.value.used else 0;
    var arg := if last.Some? then last.value.arg else if lead.Some? then lead.value.arg else sizes.nextArg;
    Scanned(n0 + n1 + sizes.used + n3, arg, sizes.nextArg)
  }

  /** The arguments of the %w verbs in the rest of a format. */
  function WrapArgs(s: string, nextArg: nat): seq<nat>
    decreases |s|
  {
    if s == "" then []
    else if s[0] != '%' then WrapArgs(s[1..], nextArg)
    else if |s| == 1 then []
    else if s[1] == '%' then WrapArgs(s[2..], nextArg)
    else
      var d := ScanDirective(s[1..], nextArg);
      if d.used + 1 >= |s| then []
      else
        var verb := s[d.used + 1];
        (if verb == 'w' then [d.arg] else []) +
        WrapArgs(s[d.used + 2..], if verb != '%' then d.arg + 1 else d.nextArg)
  }

  lemma WrapNothing()
    ensures forall n :: WrapArgs("", n) == []
  {
  }

  /** The cases of the scan's loop body. */
  lemma WrapStep(s: string, nextArg: nat)
    requires s != ""
    ensures s[0] != '%' ==> WrapArgs(s, nextArg) == WrapArgs(s[1..], nextArg)
    ensures s[0] == '%' && |s| == 1 ==> WrapArgs(s, nextArg) == []
    ensures s[0] == '%' && |s| > 1 && s[1] == '%' ==> WrapArgs(s, nextArg) == WrapArgs(s[2..], nextArg)
    ensures s[0] == '%' && |s| > 1 && s[1] != '%' ==>
      var d := ScanDirective(s[1..], nextArg);
      if d.used + 1 >= |s| then WrapArgs(s, nextArg) == []
      else WrapArgs(s, nextArg) == (if s[d.used + 1] == 'w' then [d.arg] else [])
             + WrapArgs(s[d.used + 2..], if s[d.used + 1] != '%' then d.arg + 1 else d.nextArg)
  {
    hide ScanDirective;
  }

  // The index loops.

  /** parseFmtIndex. */
  method ParseFmtIndex(format: string, i: nat) returns (idx: nat, next: nat, ok: bool)
    requires i <= |format|
    ensures i <= next <= |format|
    ensures match ParseIndex(format[i..])
            case Some(ix) => ok && idx == ix.arg && next == i + ix.used
            case None => !ok && next == i
  {
    if i >= |format| || format[i] != '[' {
      return 0, i, false;
    }
    var j := SkipDigits(format, i + 1);
    var n := DigitRun(format[i..][1..]);
    assert format[i..][1..] == format[i + 1..];
    if j == i + 1 || j >= |format| || format[j] != ']' {
      return 0, i, false;
    }
    assert format[i..][1..][..n] == format[i + 1..j];
    var v := DecimalValue(format[i + 1..j]);
    if v == 0 {
      return 0, i, false;
    }
    return v - 1, j + 1, true;
  }

  method SkipDigits(format: string, i: nat) returns (j: nat)
    requires i <= |format|
    ensures j == i + DigitRun(format[i..])
  {
    j := i;
    while j < |format| && IsDigit(format[j])
      invariant i <= j <= |format|
      invariant j + DigitRun(format[j..]) == i + DigitRun(format[i..])
    {
      assert format[j..][1..] == format[j + 1..];
      j := j + 1;
    }
  }

  method SkipFlags(format: string, i: nat) returns (j: nat)
    requires i <= |format|
    ensures j == i + FlagRun(format[i..])
  {
    j := i;
    while j < |format| && IsFlag(format[j])
      invariant i <= j <= |format|
      invariant j + FlagRun(format[j..]) == i + FlagRun(format[i..])
    {
      assert format[j..][1..] == format[j + 1..];
      j := j + 1;
    }
  }

  /** consumeFmtWidthOrPrecisionArg. */
  method ConsumeWidthOrPrecision(format: string, i: nat, nextArg: nat) returns (j: nat, next: nat)
    requires i <= |format|
    ensures i <= j <= |format| && Step(j - i, next) == Consume(format[i..], nextArg)
  {
    var idx, after, ok := ParseFmtIndex(format, i);
    if ok {
      if after < |format| && format[after] == '*' {
        return after + 1, idx + 1;
      }
      return i, nextArg;
    }
    if i < |format| && format[i] == '*' {
      return i + 1, nextArg + 1;
    }
    j := SkipDigits(format, i);
    next := nextArg;
  }

  method ConsumeSizes(format: string, start: nat, nextArg: nat) returns (i: nat, next: nat)
    requires start <= |format|
    ensures start <= i <= |format| && Step(i - start, next) == Sizes(format[start..], nextArg)
  {
    hide Consume;
    i, next := ConsumeWidthOrPrecision(format, start, nextArg);
    assert format[start..][i - start..] == format[i..];
    if i < |format| && format[i] == '.' {
      assert format[i..][1..] == format[i + 1..];
      i, next := ConsumeWidthOrPrecision(format, i + 1, next);
    }
  }

  /** The same scan by absolute positions. */
  function ScanAt(format: string, start: nat, nextArg: nat): Scanned
    requires start <= |format|
  {
    var lead := ParseIndex(format[start..]);
    var p0 := start + if lead.Some? then lead.value.used else 0;
    var p1 := p0 + FlagRun(format[p0..]);
    var sizes := Sizes(format[p1..], nextArg);
    var p2 := p1 + sizes.used;
    var last := ParseIndex(format[p2..]);
    var p3 := p2 + if last.Some? then last.value.used else 0;
    var arg := if last.Some? then last.value.arg else if lead.Some? then lead.value.arg else sizes.nextArg;
    Scanned(p3 - start, arg, sizes.nextArg)
  }

  lemma ScanAtIsScan(format: string, start: nat, nextArg: nat)
    requires start <= |format|
    ensures ScanAt(format, start, nextArg) == ScanDirective(format[start..], nextArg)
  {
    hide ParseIndex, Sizes, FlagRun;
    var lead := ParseIndex(format[start..]);
    var n0 := if lead.Some? then lead.value.used else 0;
    Slice(format, start, n0);
    var p0 := start + n0;
    Slice(format, p0, FlagRun(format[p0..]));
    var p1 := p0 + FlagRun(format[p0..]);
    var sizes := Sizes(format[p1..], nextArg);
    Slice(format, p1, sizes.used);
  }

  lemma Slice(format: string, start: nat, k: nat)
    requires start + k <= |format|
    ensures format[start..][k..] == format[start + k..]
  {
  }

  /** The part of the scan between "%" and the verb. */
  method ScanTo(format: string, start: nat, nextArg: nat) returns (i: nat, arg: nat, next: nat)
    requires start <= |format|
    ensures start <= i <= |format| && Scanned(i - start, arg, next) == ScanDirective(format[start..], nextArg)
  {
    hide ParseIndex, Sizes, FlagRun, ScanDirective;
    var verbArg: int := -1;
    var idx, after, ok := ParseFmtIndex(format, start);
    i := start;
    if ok {
      verbArg := idx;
      i := after;
    }
    i := SkipFlags(format, i);
    i, next := ConsumeSizes(format, i, nextArg);
    idx, after, ok := ParseFmtIndex(format, i);
    if ok {
      verbArg := idx;
      i := after;
    }
    arg := if verbArg < 0 then next else verbArg;
    ScanAtIsScan(format, start, nextArg);
  }

  /** fmtWrapArgIndexes: the scan stays inside the format and ends on every input. */
  method FmtWrapArgIndexes(format: string) returns (indexes: seq<nat>)
    ensures indexes == WrapArgs(format, 0)
  {
    hide ScanDirective, WrapArgs;
    WrapNothing();
    indexes := [];
    var nextArg: nat, i: nat := 0, 0;
    assert format[0..] == format && format[|format|..] == "";
    while i < |format|
      invariant i <= |format|
      invariant indexes + WrapArgs(format[i..], nextArg) == WrapArgs(format, 0)
      decreases |format| - i
    {
      ghost var s := format[i..];
      WrapStep(s, nextArg);
      assert s[1..] == format[i + 1..];
      if format[i] != '%' {
        i := i + 1;
        continue;
      }
      i := i + 1;
      if i >= |format| {
        break;
      }
      if format[i] == '%' {
        assert s[2..] == format[i + 1..];
        i := i + 1;
        continue;
      }
      ghost var start := i;
      var arg, next;
      i, arg, next := ScanTo(format, i, nextArg);
      if i >= |format| {
        break;
      }
      assert s[i - start + 1] == format[i];
      assert s[i - start + 2..] == format[i + 1..];
      if format[i] == 'w' {
        indexes := indexes + [arg];
      }
      nextArg := if format[i] != '%' then arg + 1 else next;
      i := i + 1;
    }
  }
}
