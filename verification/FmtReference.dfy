/** How package fmt itself reads the text of a format, the parts the hand-written scanner reads, and
    which texts the two read alike. Nothing is assumed of the text. */
module FmtReference {
  import opened FmtDirectives
  import opened GoStrings
  import opened Options

  // Package fmt's scan.

  const NUMBER_LIMIT: nat := 1_000_000

  /** A number that still has a digit to come when it is above the limit. */
  predicate TooLarge(v: nat) {
    v / 10 > NUMBER_LIMIT
  }

  datatype Number = Number(value: nat, present: bool, used: nat)

  /** The digits in front; at a number that is too large fmt skips all of the text it was given. */
  function ParseNumber(s: string): (r: Number)
    ensures r.used <= |s|
  {
    var k := DigitRun(s);
    var v := DecimalValue(s[..k]);
    if TooLarge(v) then Number(0, false, |s|) else Number(v, k > 0, k)
  }

  /** Where the first "]" is. */
  function CloseAt(s: string): (i: nat)
    ensures i <= |s|
  {
    if s == "" || s[0] == ']' then 0 else 1 + CloseAt(s[1..])
  }

  datatype Bracket = Bracket(number: nat, used: nat, ok: bool)

  /** The text from a "[" on: a number up to the "]", or what is skipped instead. */
  function ParseBracket(s: string): (r: Bracket)
    requires s != "" && s[0] == '['
    ensures 1 <= r.used <= |s|
  {
    var i := CloseAt(s);
    if |s| < 3 || i == |s| then Bracket(0, 1, false)
    else
      var num := ParseNumber(s[1..i]);
      if num.present && num.used == i - 1 then Bracket(num.value, i + 1, true) else Bracket(0, i + 1, false)
  }

  /** The next argument, whether every index so far was good, whether the last thing read was an
      index, and how much text was read. */
  datatype State = State(next: nat, good: bool, afterIndex: bool, used: nat)

  function ReadIndex(s: string, next: nat, n: nat): (r: State)
    ensures r.used <= |s|
  {
    if s == "" || s[0] != '[' then State(next, true, false, 0)
    else
      var b := ParseBracket(s);
      if b.ok && 1 <= b.number <= n then State(b.number - 1, true, true, b.used) else State(next, false, b.ok, b.used)
  }

  function Take(next: nat, n: nat): nat {
    if next < n then next + 1 else next
  }

  /** An index, then "*" or digits; for a width, digits behind an index are an error. */
  function ReadSize(s: string, next: nat, n: nat, width: bool): (r: State)
    ensures r.used <= |s|
  {
    var a := ReadIndex(s, next, n);
    var t := s[a.used..];
    if t != "" && t[0] == '*' then State(Take(a.next, n), a.good, false, a.used + 1)
    else
      var num := ParseNumber(t);
      State(a.next, a.good && !(width && a.afterIndex && num.present), a.afterIndex, a.used + num.used)
  }

  /** A precision, then an index unless there was one just before. */
  function ReadTail(s: string, st: State, n: nat): (r: State)
    ensures r.used <= |s|
  {
    var p := ReadPrecision(s, st, n);
    if p.afterIndex then p
    else
      var x := ReadIndex(s[p.used..], p.next, n);
      State(x.next, p.good && x.good, x.afterIndex, p.used + x.used)
  }

  function ReadPrecision(s: string, st: State, n: nat): (r: State)
    ensures r.used <= |s|
  {
    if s != "" && s[0] == '.' then
      var q := ReadSize(s[1..], st.next, n, false);
      State(q.next, st.good && !st.afterIndex && q.good, q.afterIndex, 1 + q.used)
    else State(st.next, st.good, st.afterIndex, 0)
  }

  /** The flags that package fmt documents. */
  predicate FmtFlag(c: char) {
    c == '+' || c == '-' || c == '#' || c == ' ' || c == '0'
  }

  function FlagsRead(s: string): (n: nat)
    ensures n <= |s|
  {
    if s != "" && FmtFlag(s[0]) then 1 + FlagsRead(s[1..]) else 0
  }

  /** The scanner's are the same. */
  lemma {:induction false} SameFlags(s: string)
    ensures FlagsRead(s) == FlagRun(s)
    ensures s != "" ==> (FmtFlag(s[0]) <==> IsFlag(s[0]))
  {
    if s != "" && FmtFlag(s[0]) {
      SameFlags(s[1..]);
    }
  }

  /** Everything between "%" and the verb: where the verb is, the argument that is next, and
      whether all indexes were good. */
  function ReadDirective(t: string, next: nat, n: nat): (r: State)
    ensures r.used <= |t|
  {
    var f := FlagsRead(t);
    var w := ReadSize(t[f..], next, n, true);
    var x := ReadTail(t[f..][w.used..], w, n);
    State(x.next, x.good, x.afterIndex, f + w.used + x.used)
  }

  /** The arguments, of n, that fmt.Errorf wraps. */
  function FmtWraps(s: string, next: nat, n: nat): seq<nat>
    decreases |s|
  {
    if s == "" then []
    else if s[0] != '%' then FmtWraps(s[1..], next, n)
    else
      var d := ReadDirective(s[1..], next, n);
      if d.used + 1 >= |s| then []
      else
        var verb, rest := s[d.used + 1], s[d.used + 2..];
        if verb == '%' || !d.good || d.next >= n then FmtWraps(rest, d.next, n)
        else (if verb == 'w' then [d.next] else []) + FmtWraps(rest, d.next + 1, n)
  }

  // The scanner's reading, part by part.

  datatype SizeText = NoSize | DigitsText(value: nat, length: nat) | StarText | IndexedText(index: Index)

  function SizeAt(s: string): (z: SizeText)
    ensures SizeUsed(z) <= |s|
  {
    match ParseIndex(s)
    case Some(ix) => if ix.used < |s| && s[ix.used] == '*' then IndexedText(ix) else NoSize
    case None =>
      if s != "" && s[0] == '*' then StarText
      else if DigitRun(s) > 0 then DigitsText(DecimalValue(s[..DigitRun(s)]), DigitRun(s))
      else NoSize
  }

  function SizeUsed(z: SizeText): nat {
    match z
    case NoSize => 0
    case DigitsText(_, k) => k
    case StarText => 1
    case IndexedText(ix) => ix.used + 1
  }

  function SizeNext(z: SizeText, next: nat): nat {
    match z
    case NoSize | DigitsText(_, _) => next
    case StarText => next + 1
    case IndexedText(ix) => ix.arg + 1
  }

  lemma ConsumeIsSize(s: string, next: nat)
    ensures Consume(s, next) == Step(SizeUsed(SizeAt(s)), SizeNext(SizeAt(s), next))
  {
    hide ParseIndex, DecimalValue;
  }

  /** A precision and the last index. */
  datatype Tail = Tail(precision: Option<SizeText>, last: Option<Index>, used: nat)

  function TailOf(s: string): (r: Tail)
    ensures r.used <= |s|
  {
    var precision := if s != "" && s[0] == '.' then Some(SizeAt(s[1..])) else None;
    var n := if precision.Some? then 1 + SizeUsed(precision.value) else 0;
    var last := ParseIndex(s[n..]);
    Tail(precision, last, n + if last.Some? then last.value.used else 0)
  }

  datatype Parts = Parts(lead: Option<Index>, flags: nat, width: SizeText, tail: Tail, verbAt: nat)

  function PartsOf(t: string): (r: Parts)
    ensures r.verbAt <= |t|
  {
    var lead := ParseIndex(t);
    var n0 := if lead.Some? then lead.value.used else 0;
    var s0 := t[n0..];
    var n1 := FlagRun(s0);
    var s1 := s0[n1..];
    var width := SizeAt(s1);
    var tail := TailOf(s1[SizeUsed(width)..]);
    Parts(lead, n1, width, tail, n0 + n1 + SizeUsed(width) + tail.used)
  }

  /** The argument the scanner takes, and the next one it has in mind before. */
  function ScanNext(p: Parts, next: nat): nat {
    var w := SizeNext(p.width, next);
    if p.tail.precision.Some? then SizeNext(p.tail.precision.value, w) else w
  }

  function ScanArg(p: Parts, next: nat): nat {
    if p.tail.last.Some? then p.tail.last.value.arg
    else if p.lead.Some? then p.lead.value.arg
    else ScanNext(p, next)
  }

  lemma SizesAreParts(s: string, next: nat)
    ensures var w := SizeAt(s);
            var t := TailOf(s[SizeUsed(w)..]);
            && Sizes(s, next) == Step(SizeUsed(w) + (if t.precision.Some? then 1 + SizeUsed(t.precision.value) else 0),
                                      if t.precision.Some? then SizeNext(t.precision.value, SizeNext(w, next)) else SizeNext(w, next))
  {
    hide ParseIndex, DecimalValue, SizeAt, Consume;
    ConsumeIsSize(s, next);
    var u := s[SizeUsed(SizeAt(s))..];
    if u != "" && u[0] == '.' {
      ConsumeIsSize(u[1..], SizeNext(SizeAt(s), next));
    }
  }

  /** The scan of a directive is determined by its parts. */
  lemma ScanIsParts(t: string, next: nat)
    ensures var p := PartsOf(t);
            ScanDirective(t, next) == Scanned(p.verbAt, ScanArg(p, next), ScanNext(p, next))
  {
    hide ParseIndex, FlagRun, SizeAt, Sizes, SizeUsed, SizeNext, TailOf;
    var lead := ParseIndex(t);
    var s0 := t[if lead.Some? then lead.value.used else 0..];
    SizesThenLast(s0[FlagRun(s0)..], next);
  }

  lemma SizesThenLast(s: string, next: nat)
    ensures var w, sizes := SizeAt(s), Sizes(s, next);
            var t := TailOf(s[SizeUsed(w)..]);
            && ParseIndex(s[sizes.used..]) == t.last
            && sizes.used + (if t.last.Some? then t.last.value.used else 0) == SizeUsed(w) + t.used
            && sizes.nextArg == if t.precision.Some? then SizeNext(t.precision.value, SizeNext(w, next)) else SizeNext(w, next)
  {
    hide ParseIndex, SizeAt, Sizes, SizeUsed, SizeNext, TailOf;
    SizesAreParts(s, next);
    TailFits(s);
    TailUsed(s[SizeUsed(SizeAt(s))..]);
  }

  lemma TailUsed(s: string)
    ensures var t := TailOf(s);
            t.used == (if t.precision.Some? then 1 + SizeUsed(t.precision.value) else 0) + (if t.last.Some? then t.last.value.used else 0)
  {
    hide ParseIndex, SizeAt, SizeUsed;
  }

  /** What follows the sizes. */
  lemma TailFits(s: string)
    ensures var w := SizeUsed(SizeAt(s));
            var t := TailOf(s[w..]);
            var k := if t.precision.Some? then 1 + SizeUsed(t.precision.value) else 0;
            w + k <= |s| && s[w..][k..] == s[w + k..] && t.last == ParseIndex(s[w + k..])
  {
    hide ParseIndex, SizeAt;
  }

  // When the two readings are the same.

  predicate Fits(ix: Index, n: nat) {
    ix.arg < n && !TooLarge(ix.arg + 1)
  }

  predicate SizeFits(z: SizeText, n: nat) {
    z.IndexedText? ==> Fits(z.index, n)
  }

  /** Every index names one of n arguments. */
  predicate InRange(p: Parts, n: nat) {
    && (p.lead.Some? ==> Fits(p.lead.value, n)) && SizeFits(p.width, n) && TailInRange(p.tail, n)
  }

  predicate TailInRange(t: Tail, n: nat) {
    (t.precision.Some? ==> SizeFits(t.precision.value, n)) && (t.last.Some? ==> Fits(t.last.value, n))
  }

  predicate Plain(z: SizeText) {
    z.DigitsText? ==> !TooLarge(z.value)
  }

  /** No number is too large, a "[" is not the verb unless an index is in front of it, and no digit
      follows an index that stands for a precision. */
  predicate TailReadable(t: Tail, verb: char) {
    && (t.precision.Some? ==> Plain(t.precision.value))
    && (verb == '[' ==> t.last.Some?)
    && (t.last.Some? && t.precision == Some(NoSize) ==> !IsDigit(verb))
  }

  /** An index comes directly before a "*" or before the verb: one right after "%" has no flags, no
      digits, no precision and no second index behind it, and one after flags no digit and no ".". */
  predicate Readable(p: Parts, verb: char) {
    if p.lead.Some? && !p.width.StarText? then p.flags == 0 && p.width.NoSize? && p.tail == Tail(None, None, 0)
    else
      && (p.lead.Some? ==> p.flags == 0)
      && Plain(p.width) && TailReadable(p.tail, verb)
      && (p.width.NoSize? && p.tail.precision.None? && p.tail.last.Some? ==> !IsDigit(verb) && verb != '.')
  }

  /** The argument that is next for package fmt when all indexes are good. */
  function RefSize(z: SizeText, next: nat, n: nat): nat {
    match z
    case NoSize | DigitsText(_, _) => next
    case StarText => Take(next, n)
    case IndexedText(ix) => ix.arg + 1
  }

  function RefTail(t: Tail, next: nat, n: nat): nat {
    if t.last.Some? then t.last.value.arg
    else if t.precision.Some? then RefSize(t.precision.value, next, n)
    else next
  }

  function RefNext(p: Parts, next: nat, n: nat): nat {
    if p.lead.Some? && !p.width.StarText? then p.lead.value.arg
    else RefTail(p.tail, if p.lead.Some? then p.lead.value.arg + 1 else RefSize(p.width, next, n), n)
  }

  function Min(a: nat, b: nat): nat {
    if a < b then a else b
  }

  /** The scanner keeps an index right after "%" for the verb even when it belongs to a "*" width;
      this shows unless the verb has its own, or a precision brings the numbers together again. */
  predicate Aligned(p: Parts) {
    p.lead.Some? && p.width.StarText? && p.tail.last.None? ==>
      p.tail.precision.Some? && p.tail.precision.value.IndexedText? && p.tail.precision.value.index.arg + 1 == p.lead.value.arg
  }

  /** What is needed of a directive for the two numberings to stay together: of one that formats
      nothing, that the next argument is the same. */
  predicate Alike(p: Parts, verb: char, next: nat, n: nat) {
    && Readable(p, verb) && InRange(p, n)
    && if verb == '%' then RefNext(p, Min(next, n), n) == Min(ScanNext(p, next), n) else Aligned(p)
  }

  predicate AllAlike(s: string, next: nat, n: nat)
    decreases |s|
  {
    if s == "" then true
    else if s[0] != '%' then AllAlike(s[1..], next, n)
    else if |s| == 1 then true
    else if s[1] == '%' then AllAlike(s[2..], next, n)
    else
      var p := PartsOf(s[1..]);
      if p.verbAt + 1 >= |s| then true
      else
        var verb := s[p.verbAt + 1];
        && Alike(p, verb, next, n)
        && AllAlike(s[p.verbAt + 2..], if verb == '%' then ScanNext(p, next) else ScanArg(p, next) + 1, n)
  }

  /** The numbers that name an argument. */
  function Below(xs: seq<nat>, n: nat): seq<nat> {
    if xs == [] then [] else (if xs[0] < n then [xs[0]] else []) + Below(xs[1..], n)
  }
}
