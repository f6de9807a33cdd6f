/**
  Configuration durations: a signed 64-bit count of nanoseconds, its text and the
  parser of that text (crates/dae-config-util/src/duration.rs).  Text is UTF-8.
*/
module Duration {
  import opened Bytes
  import opened Decimal

  const MICRO := 1_000
  const MILLI := 1_000_000
  const SEC := 1_000_000_000
  const MIN := 60_000_000_000
  const HOUR := 3_600_000_000_000

  const I128_MAX: int := 0x7fff_ffff_ffff_ffff_ffff_ffff_ffff_ffff
  const I64_MAX: int := 0x7fff_ffff_ffff_ffff

  predicate IsI64(n: int) {
    -I64_MAX - 1 <= n <= I64_MAX
  }

  /** `i128` addition of two non-negative numbers in an optimised build: it wraps. */
  function WrapAdd(a: nat, b: nat): int {
    if a + b > I128_MAX then a + b - 2 * (I128_MAX + 1) else a + b
  }

  /** Product and truncated quotient, by repeated addition and subtraction; see `TimesIs` and `QuotientIs`. */
  function Times(a: nat, b: nat): nat {
    if a == 0 then 0 else b + Times(a - 1, b)
  }

  function Quotient(a: nat, b: nat): nat
    requires b > 0
  {
    if a < b then 0 else 1 + Quotient(a - b, b)
  }

  lemma {:induction false} TimesIs(a: nat, b: nat)
    ensures Times(a, b) == a * b
    decreases a
  {
    if a > 0 {
      TimesIs(a - 1, b);
      assert a * b == b + (a - 1) * b;
    }
  }

  lemma {:induction false} QuotientIs(a: nat, b: nat)
    requires b > 0
    ensures Quotient(a, b) * b <= a < Quotient(a, b) * b + b
    decreases a
  {
    if a >= b {
      QuotientIs(a - b, b);
      assert Quotient(a, b) * b == Quotient(a - b, b) * b + b;
    }
  }

  lemma {:induction false} DivideExactly(a: nat, b: nat)
    requires b > 0
    ensures Quotient(Times(a, b), b) == a
    decreases a
  {
    if a > 0 { DivideExactly(a - 1, b); }
  }

  const DOT: byte := 46
  const MINUS: byte := 45
  const PLUS: byte := 43
  const LETTER_H: byte := 104
  const LETTER_M: byte := 109
  const LETTER_N: byte := 110
  const LETTER_S: byte := 115
  const LETTER_U: byte := 117
  /** The micro sign, U+00B5. */
  const MICRO_SIGN: seq<byte> := [0xc2, 0xb5]

  function Pow10(k: nat): (r: nat)
    ensures r > 0
  {
    if k == 0 then 1 else 10 * Pow10(k - 1)
  }

  /* ----- parsing ----- */

  /** How many digits `s` starts with. */
  function DigitRun(s: seq<byte>): (r: nat)
    ensures r <= |s| && forall i :: 0 <= i < r ==> IsDigit(s[i])
  {
    if s == [] || !IsDigit(s[0]) then 0 else 1 + DigitRun(s[1..])
  }

  /** A number at the start of a text: its digits before and after the point, and the rest. */
  datatype Number = Number(whole: seq<byte>, frac: seq<byte>, rest: seq<byte>)

  function ParseNumber(s: seq<byte>): (r: Option<Number>)
    ensures r.Some? ==> AllDigits(r.value.whole) && AllDigits(r.value.frac) && |r.value.rest| < |s|
  {
    var w := DigitRun(s);
    if w < |s| && s[w] == DOT then
      var f := DigitRun(s[w + 1..]);
      if w == 0 && f == 0 then None
      else Some(Number(s[..w], s[w + 1..][..f], s[w + 1..][f..]))
    else if w == 0 then None
    else Some(Number(s[..w], [], s[w..]))
  }

  /** A unit and the octets it takes. */
  datatype Unit = Unit(nanos: nat, length: nat)

  predicate Begins(s: seq<byte>, a: byte, b: byte) {
    |s| >= 2 && s[0] == a && s[1] == b
  }

  /** `parse_unit` at the start of `s`; both the micro sign and the Greek mu (U+03BC) are read. */
  function ParseUnit(s: seq<byte>): (r: Option<Unit>)
    ensures r.Some? ==> 0 < r.value.length <= |s|
  {
    if Begins(s, LETTER_N, LETTER_S) then Some(Unit(1, 2))
    else if Begins(s, LETTER_U, LETTER_S) then Some(Unit(MICRO, 2))
    else if Begins(s, 0xc2, 0xb5) && |s| >= 3 && s[2] == LETTER_S then Some(Unit(MICRO, 3))
    else if Begins(s, 0xce, 0xbc) && |s| >= 3 && s[2] == LETTER_S then Some(Unit(MICRO, 3))
    else if Begins(s, LETTER_M, LETTER_S) then Some(Unit(MILLI, 2))
    else if s != [] && s[0] == LETTER_S then Some(Unit(SEC, 1))
    else if s != [] && s[0] == LETTER_M then Some(Unit(MIN, 1))
    else if s != [] && s[0] == LETTER_H then Some(Unit(HOUR, 1))
    else None
  }

  /** `i128` nanoseconds of a number in a unit; None when an intermediate value overflows. */
  function TermNanos(whole: seq<byte>, frac: seq<byte>, unit: nat): Option<int>
    requires AllDigits(whole) && AllDigits(frac)
  {
    if Value(whole) > I128_MAX || Times(Value(whole), unit) > I128_MAX then None
    else if frac == [] then Some(Times(Value(whole), unit))
    else if Value(frac) > I128_MAX || Pow10(|frac|) > I128_MAX || Times(Value(frac), unit) > I128_MAX then None
    else Some(WrapAdd(Times(Value(whole), unit), Quotient(Times(Value(frac), unit), Pow10(|frac|))))
  }

  lemma ScaledSum(w: nat, f: nat, u: nat, p: nat, q: nat)
    requires q * p <= f * u < q * p + p
    ensures (w * u + q) * p <= (w * p + f) * u < (w * u + q + 1) * p
  {
    assert (w * u + q) * p == w * u * p + q * p;
    assert (w * p + f) * u == w * p * u + f * u;
    assert w * u * p == w * p * u;
    assert (w * u + q + 1) * p == (w * u + q) * p + p;
  }

  lemma TimesGrows(a: nat, b: nat, p: nat)
    requires a <= b
    ensures a * p <= b * p
  {
    assert b * p == a * p + (b - a) * p;
  }

  /** The digits `whole` and `frac` of a number times the unit, times the power of ten of its fraction. */
  function Scaled(whole: seq<byte>, frac: seq<byte>, unit: nat): nat
    requires AllDigits(whole) && AllDigits(frac)
  {
    (Value(whole) * Pow10(|frac|) + Value(frac)) * unit
  }

  lemma SumOfTerm(w: nat, f: nat, u: nat, p: nat)
    requires p > 0
    ensures var sum := Times(w, u) + Quotient(Times(f, u), p);
            sum * p <= (w * p + f) * u < (sum + 1) * p
  {
    TimesIs(w, u);
    TimesIs(f, u);
    QuotientIs(f * u, p);
    ScaledSum(w, f, u, p, Quotient(f * u, p));
  }

  lemma {:induction false} QuotientBound(a: nat, b: nat)
    requires b > 0
    ensures Quotient(a, b) <= a
    decreases a
  {
    if a >= b { QuotientBound(a - b, b); }
  }

  /** What a term adds up to before it wraps. */
  function TermSum(whole: seq<byte>, frac: seq<byte>, unit: nat): nat
    requires AllDigits(whole) && AllDigits(frac)
  {
    Times(Value(whole), unit) + Quotient(Times(Value(frac), unit), Pow10(|frac|))
  }

  lemma TermWraps(whole: seq<byte>, frac: seq<byte>, unit: nat)
    requires AllDigits(whole) && AllDigits(frac) && TermNanos(whole, frac, unit).Some?
    ensures var n, sum := TermNanos(whole, frac, unit).value, TermSum(whole, frac, unit);
            if sum > I128_MAX then n < 0 else n == sum
  {
    QuotientBound(Times(Value(frac), unit), Pow10(|frac|));
  }

  /**
    A term is the number times the unit, rounded down to a nanosecond, unless that is
    more than an `i128` holds; then and only then the sum wraps to a negative count.
  */
  lemma TermIsTruncated(whole: seq<byte>, frac: seq<byte>, unit: nat)
    requires AllDigits(whole) && AllDigits(frac) && TermNanos(whole, frac, unit).Some?
    ensures var n, p := TermNanos(whole, frac, unit).value, Pow10(|frac|);
            && (n >= 0 ==> n * p <= Scaled(whole, frac, unit) < (n + 1) * p)
            && (n < 0 <==> Scaled(whole, frac, unit) >= (I128_MAX + 1) * p)
  {
    TermWraps(whole, frac, unit);
    SumOfTerm(Value(whole), Value(frac), unit, Pow10(|frac|));
    SumInRange(TermSum(whole, frac, unit), Pow10(|frac|), Scaled(whole, frac, unit));
  }

  lemma SumInRange(sum: nat, p: nat, scaled: nat)
    requires sum * p <= scaled < (sum + 1) * p
    ensures sum > I128_MAX <==> scaled >= (I128_MAX + 1) * p
  {
    if sum > I128_MAX {
      TimesGrows(I128_MAX + 1, sum, p);
    } else {
      TimesGrows(sum + 1, I128_MAX + 1, p);
    }
  }

  /** The number, the unit and the rest of a text that starts with a term. */
  datatype Parts = Parts(whole: seq<byte>, frac: seq<byte>, unit: nat, rest: seq<byte>)

  function SplitTerm(s: seq<byte>): (r: Option<Parts>)
    ensures r.Some? ==> AllDigits(r.value.whole) && AllDigits(r.value.frac) && |r.value.rest| < |s|
  {
    match ParseNumber(s)
    case None => None
    case Some(n) =>
      match ParseUnit(n.rest)
      case None => None
      case Some(unit) => Some(Parts(n.whole, n.frac, unit.nanos, n.rest[unit.length..]))
  }

  /** One term, and what follows it. */
  datatype Term = Term(nanos: int, rest: seq<byte>)

  function ParseTerm(s: seq<byte>): (r: Option<Term>)
    ensures r.Some? ==> |r.value.rest| < |s|
  {
    match SplitTerm(s)
    case None => None
    case Some(p) =>
      match TermNanos(p.whole, p.frac, p.unit)
      case None => None
      case Some(n) => Some(Term(n, p.rest))
  }

  lemma DottedNumber(s: seq<byte>, w: nat, f: nat, n: Number)
    requires DigitRun(s) == w < |s| && s[w] == DOT && DigitRun(s[w + 1..]) == f
    requires s[..w] == n.whole && s[w + 1..] == n.frac + n.rest && |n.frac| == f
    ensures ParseNumber(s) == if w == 0 && f == 0 then None else Some(n)
  {
  }

  /** A way to read one term off the front of a text. */
  type TermParser = seq<byte> -> Option<Term>

  ghost predicate Shrinks(parse: TermParser) {
    forall s :: parse(s).Some? ==> |parse(s).value.rest| < |s|
  }

  /** The terms of a text, added up with `i128` overflow checks. */
  ghost function ParseTerms(parse: TermParser, s: seq<byte>, total: int): Option<int>
    requires Shrinks(parse)
    decreases |s|
  {
    if s == [] then Some(total)
    else
      match parse(s)
      case None => None
      case Some(t) =>
        if -I128_MAX - 1 <= total + t.nanos <= I128_MAX then ParseTerms(parse, t.rest, total + t.nanos) else None
  }

  lemma ParseTermShrinks()
    ensures Shrinks(ParseTerm)
  {
  }

  function Unsigned(s: seq<byte>): seq<byte> {
    if s != [] && (s[0] == PLUS || s[0] == MINUS) then s[1..] else s
  }

  /** The sign is put on and the 64-bit range checked last. */
  function Signed(total: Option<int>, negative: bool): (r: Option<int>)
    ensures r.Some? ==> IsI64(r.value)
  {
    match total
    case None => None
    case Some(n) =>
      var signed := if negative then -n else n;
      if IsI64(signed) then Some(signed) else None
  }

  /** The sum of the terms of a text. */
  ghost function Total(s: seq<byte>): Option<int> {
    ParseTermShrinks();
    ParseTerms(ParseTerm, s, 0)
  }

  /** `parse_duration`. */
  ghost function Parse(s: seq<byte>): (r: Option<int>)
    ensures r.Some? ==> IsI64(r.value)
  {
    if Unsigned(s) == [] then None else Signed(Total(Unsigned(s)), s[0] == MINUS)
  }

  /* ----- the whole result ----- */

  /** What a term is read as, and its number times its unit rounded down to a nanosecond. */
  function Nanos(p: Parts): Option<int> {
    if AllDigits(p.whole) && AllDigits(p.frac) then TermNanos(p.whole, p.frac, p.unit) else None
  }

  function Exact(p: Parts): nat {
    if AllDigits(p.whole) && AllDigits(p.frac) then TermSum(p.whole, p.frac, p.unit) else 0
  }

  lemma ExactIsTruncated(p: Parts)
    requires AllDigits(p.whole) && AllDigits(p.frac)
    ensures Exact(p) * Pow10(|p.frac|) <= Scaled(p.whole, p.frac, p.unit) < (Exact(p) + 1) * Pow10(|p.frac|)
    ensures Nanos(p).Some? ==> Nanos(p).value == Exact(p) || (Nanos(p).value < 0 && Exact(p) > I128_MAX)
  {
    SumOfTerm(Value(p.whole), Value(p.frac), p.unit, Pow10(|p.frac|));
    if Nanos(p).Some? { TermWraps(p.whole, p.frac, p.unit); }
  }

  /** How a text is split into terms, what a term is read as, and what it stands for. */
  type Splitter = seq<byte> -> Option<Parts>
  type Reader = Parts -> Option<int>
  type Meaning = Parts -> nat

  ghost predicate Splits(split: Splitter) {
    forall s :: split(s).Some? ==> |split(s).value.rest| < |s|
  }

  /** The terms a text is made of. */
  ghost function Terms(split: Splitter, s: seq<byte>): Option<seq<Parts>>
    requires Splits(split)
    decreases |s|
  {
    if s == [] then Some([])
    else
      match split(s)
      case None => None
      case Some(p) =>
        match Terms(split, p.rest)
        case None => None
        case Some(ps) => Some([p] + ps)
  }

  /** What the terms are read as; None if one of them cannot be. */
  function ReadAll(read: Reader, ps: seq<Parts>): Option<seq<int>> {
    if ps == [] then Some([])
    else
      match (read(ps[0]), ReadAll(read, ps[1..]))
      case (Some(n), Some(ns)) => Some([n] + ns)
      case _ => None
  }

  /** No term exceeds 128 bits, so that no unchecked addition wraps. */
  predicate Unwrapped(exact: Meaning, ps: seq<Parts>) {
    ps == [] || (exact(ps[0]) <= I128_MAX && Unwrapped(exact, ps[1..]))
  }

  function SumOf(exact: Meaning, ps: seq<Parts>): nat {
    if ps == [] then 0 else exact(ps[0]) + SumOf(exact, ps[1..])
  }

  /** Numbers added up with an overflow check after each. */
  function AddAll(ns: seq<int>, total: int): Option<int> {
    if ns == [] then Some(total)
    else if -I128_MAX - 1 <= total + ns[0] <= I128_MAX then AddAll(ns[1..], total + ns[0])
    else None
  }

  ghost predicate Reads(parse: TermParser, split: Splitter, read: Reader) {
    forall s :: parse(s) ==
      if split(s).Some? && read(split(s).value).Some? then Some(Term(read(split(s).value).value, split(s).value.rest)) else None
  }

  lemma ReadMore(read: Reader, p: Parts, ps: seq<Parts>)
    ensures ReadAll(read, [p] + ps) ==
            if read(p).Some? && ReadAll(read, ps).Some? then Some([read(p).value] + ReadAll(read, ps).value) else None
  {
    assert ([p] + ps)[1..] == ps;
  }

  lemma AddMore(n: int, ns: seq<int>, total: int)
    ensures AddAll([n] + ns, total) == if -I128_MAX - 1 <= total + n <= I128_MAX then AddAll(ns, total + n) else None
  {
    assert ([n] + ns)[1..] == ns;
  }

  /** Parsing is splitting, reading every term and adding up. */
  lemma {:induction false} ParseInSteps(parse: TermParser, split: Splitter, read: Reader, s: seq<byte>, total: int)
    requires Shrinks(parse) && Splits(split) && Reads(parse, split, read)
    ensures var ts := Terms(split, s);
            ParseTerms(parse, s, total) ==
            if ts.None? || ReadAll(read, ts.value).None? then None else AddAll(ReadAll(read, ts.value).value, total)
    decreases |s|
  {
    if s != [] && split(s).Some? {
      var p := split(s).value;
      if Terms(split, p.rest).Some? {
        ReadMore(read, p, Terms(split, p.rest).value);
        if read(p).Some? && ReadAll(read, Terms(split, p.rest).value).Some? {
          AddMore(read(p).value, ReadAll(read, Terms(split, p.rest).value).value, total);
        }
      }
      if read(p).Some? { ParseInSteps(parse, split, read, p.rest, total + read(p).value); }
    }
  }

  /** Numbers that are what the terms stand for add up to the sum, or fail when it exceeds 128 bits. */
  lemma {:induction false} AddsUp(read: Reader, exact: Meaning, ps: seq<Parts>, total: nat)
    requires forall p :: read(p).Some? && exact(p) <= I128_MAX ==> read(p) == Some(exact(p))
    requires ReadAll(read, ps).Some? && Unwrapped(exact, ps) && total <= I128_MAX
    ensures AddAll(ReadAll(read, ps).value, total) ==
            if total + SumOf(exact, ps) <= I128_MAX then Some(total + SumOf(exact, ps)) else None
    decreases |ps|
  {
    if ps != [] {
      AddMore(exact(ps[0]), ReadAll(read, ps[1..]).value, total);
      if total + exact(ps[0]) <= I128_MAX { AddsUp(read, exact, ps[1..], total + exact(ps[0])); }
    }
  }

  lemma TotalIsSum(parse: TermParser, split: Splitter, read: Reader, exact: Meaning, s: seq<byte>, negative: bool)
    requires Shrinks(parse) && Splits(split) && Reads(parse, split, read)
    requires forall p :: read(p).Some? && exact(p) <= I128_MAX ==> read(p) == Some(exact(p))
    ensures var ts, total := Terms(split, s), ParseTerms(parse, s, 0);
            if ts.None? || ReadAll(read, ts.value).None? then total == None
            else Unwrapped(exact, ts.value) ==> Signed(total, negative) == Signed(Some(SumOf(exact, ts.value)), negative)
  {
    var ts := Terms(split, s);
    ParseInSteps(parse, split, read, s, 0);
    if ts.Some? && ReadAll(read, ts.value).Some? && Unwrapped(exact, ts.value) { AddsUp(read, exact, ts.value, 0); }
  }

  lemma SourceReads()
    ensures Splits(SplitTerm) && Reads(ParseTerm, SplitTerm, Nanos)
    ensures forall p :: Nanos(p).Some? && Exact(p) <= I128_MAX ==> Nanos(p) == Some(Exact(p))
  {
    forall p | Nanos(p).Some? && Exact(p) <= I128_MAX ensures Nanos(p) == Some(Exact(p)) { ExactIsTruncated(p); }
  }

  /**
    Unless some term wraps, a text parses exactly when it is made of terms, none
    needs an intermediate value beyond 128 bits and the signed sum fits 64 bits; the
    result is that sum of the terms, each rounded down to a nanosecond.
  */
  lemma ParseIsSum(s: seq<byte>)
    ensures Splits(SplitTerm)
    ensures var ts := Terms(SplitTerm, Unsigned(s));
            if Unsigned(s) == [] || ts.None? || ReadAll(Nanos, ts.value).None? then Parse(s) == None
            else Unwrapped(Exact, ts.value) ==> Parse(s) == Signed(Some(SumOf(Exact, ts.value)), s[0] == MINUS)
  {
    ParseTermShrinks();
    SourceReads();
    if Unsigned(s) != [] { TotalIsSum(ParseTerm, SplitTerm, Nanos, Exact, Unsigned(s), s[0] == MINUS); }
  }

  /* ----- printing ----- */

  /** The numeral of `n` in exactly `k` digits. */
  function Padded(n: nat, k: nat): (r: seq<byte>)
    ensures |r| == k && AllDigits(r)
  {
    if k == 0 then [] else Padded(n / 10, k - 1) + [48 + n % 10]
  }

  function TrimZeros(s: seq<byte>): (r: seq<byte>)
    ensures |r| <= |s|
    ensures AllDigits(s) ==> AllDigits(r)
    decreases |s|
  {
    if s != [] && s[|s| - 1] == 48 then TrimZeros(s[..|s| - 1]) else s
  }

  /** `write_seconds_fraction` and the plain seconds case. */
  function SecondsText(seconds: nat, nanos: nat): seq<byte> {
    if nanos == 0 then Digits(seconds) + [LETTER_S]
    else Digits(seconds) + [DOT] + TrimZeros(Padded(nanos, 9)) + [LETTER_S]
  }

  /** `write_subsecond`. */
  function SubsecondText(nanos: nat): seq<byte> {
    if nanos % MILLI == 0 then Digits(nanos / MILLI) + [LETTER_M, LETTER_S]
    else if nanos % MICRO == 0 then Digits(nanos / MICRO) + MICRO_SIGN + [LETTER_S]
    else Digits(nanos) + [LETTER_N, LETTER_S]
  }

  function ClockText(hours: nat, minutes: nat): seq<byte> {
    if hours > 0 then Digits(hours) + [LETTER_H] + Digits(minutes) + [LETTER_M]
    else if minutes > 0 then Digits(minutes) + [LETTER_M]
    else []
  }

  function MagnitudeText(n: nat): seq<byte> {
    if n == 0 then [48, LETTER_S]
    else if n < SEC then SubsecondText(n)
    else ClockText(n / HOUR, n % HOUR / MIN) + SecondsText(n % HOUR % MIN / SEC, n % HOUR % MIN % SEC)
  }

  /** The text of a duration (`Display for ConfigDuration`). */
  function Print(n: int): seq<byte> {
    if n < 0 then [MINUS] + MagnitudeText(-n) else MagnitudeText(n)
  }

  /* ----- round trip ----- */

  lemma {:induction false} RunOfDigits(d: seq<byte>, rest: seq<byte>)
    requires AllDigits(d) && (rest == [] || !IsDigit(rest[0]))
    ensures DigitRun(d + rest) == |d|
    decreases d
  {
    if d == [] {
      assert d + rest == rest;
    } else {
      assert (d + rest)[1..] == d[1..] + rest;
      RunOfDigits(d[1..], rest);
    }
  }

  lemma WholeNumber(d: seq<byte>, rest: seq<byte>)
    requires d != [] && AllDigits(d) && rest != [] && !IsDigit(rest[0]) && rest[0] != DOT
    ensures ParseNumber(d + rest) == Some(Number(d, [], rest))
  {
    RunOfDigits(d, rest);
    assert (d + rest)[..|d|] == d && (d + rest)[|d|..] == rest;
  }

  lemma SplitWhole(d: seq<byte>, unit: seq<byte>, u: nat, rest: seq<byte>)
    requires d != [] && AllDigits(d) && unit != [] && !IsDigit(unit[0]) && unit[0] != DOT
    requires ParseUnit(unit + rest) == Some(Unit(u, |unit|))
    ensures SplitTerm(d + unit + rest) == Some(Parts(d, [], u, rest))
  {
    assert d + unit + rest == d + (unit + rest);
    WholeNumber(d, unit + rest);
    assert (unit + rest)[|unit|..] == rest;
  }

  lemma NanosWhole(n: nat, u: nat)
    requires n <= I128_MAX && Times(n, u) <= I128_MAX
    ensures TermNanos(Digits(n), [], u) == Some(Times(n, u))
  {
    ValueOfDigits(n);
  }

  lemma Combined(s: seq<byte>, p: Parts, v: int)
    requires AllDigits(p.whole) && AllDigits(p.frac) && SplitTerm(s) == Some(p) && TermNanos(p.whole, p.frac, p.unit) == Some(v)
    ensures ParseTerm(s) == Some(Term(v, p.rest))
  {
  }

  /** A whole number and a unit parse to their product. */
  lemma WholeTerm(n: nat, unit: seq<byte>, u: nat, rest: seq<byte>)
    requires unit != [] && !IsDigit(unit[0]) && unit[0] != DOT && ParseUnit(unit + rest) == Some(Unit(u, |unit|))
    requires n <= I128_MAX && Times(n, u) <= I128_MAX
    ensures ParseTerm(Digits(n) + unit + rest) == Some(Term(Times(n, u), rest))
  {
    SplitWhole(Digits(n), unit, u, rest);
    NanosWhole(n, u);
    Combined(Digits(n) + unit + rest, Parts(Digits(n), [], u, rest), Times(n, u));
  }

  lemma {:induction false} PaddedValue(n: nat, k: nat)
    requires n < Pow10(k)
    ensures Value(Padded(n, k)) == n
    decreases k
  {
    if k > 0 {
      PaddedValue(n / 10, k - 1);
      ValueSnoc(Padded(n / 10, k - 1), n % 10);
    }
  }

  /** Dropping trailing zeros keeps the fraction a decimal numeral stands for. */
  lemma {:induction false} TrimmedExact(s: seq<byte>, nanos: nat)
    requires AllDigits(s) && Times(Value(s), SEC) == Times(nanos, Pow10(|s|))
    ensures var r := TrimZeros(s);
            Times(Value(r), SEC) == Times(nanos, Pow10(|r|)) && Value(r) <= Value(s) && (r == [] ==> Value(s) == 0)
    decreases |s|
  {
    if s != [] && s[|s| - 1] == 48 {
      var t := s[..|s| - 1];
      assert Value(s) == 10 * Value(t) && Pow10(|s|) == 10 * Pow10(|t|);
      TimesTen(Value(t), SEC);
      TimesTen(nanos, Pow10(|t|));
      TrimmedExact(t, nanos);
    }
  }

  lemma {:induction false} TimesTen(a: nat, b: nat)
    ensures Times(10 * a, b) == 10 * Times(a, b) == Times(a, 10 * b)
    decreases a
  {
    if a > 0 {
      TimesTen(a - 1, b);
      TimesPlus(10 * (a - 1), 10, b);
      TimesSmall(b);
    }
  }

  lemma {:induction false} TimesPlus(a: nat, c: nat, b: nat)
    ensures Times(a + c, b) == Times(a, b) + Times(c, b)
    decreases c
  {
    if c > 0 { TimesPlus(a, c - 1, b); }
  }

  lemma TimesSmall(b: nat)
    ensures Times(10, b) == 10 * b
  {
    TimesIs(10, b);
  }

  lemma Pow10Nine()
    ensures Pow10(9) == SEC
  {
    assert Pow10(4) == 10_000;
    assert Pow10(8) == 100_000_000;
  }

  lemma {:induction false} Pow10Grows(a: nat, b: nat)
    requires a <= b
    ensures Pow10(a) <= Pow10(b)
    decreases b - a
  {
    if a < b { Pow10Grows(a + 1, b); }
  }

  /** The printed fraction of a second stands for exactly the nanoseconds printed. */
  lemma FractionExact(nanos: nat)
    requires 0 < nanos < SEC
    ensures var frac := TrimZeros(Padded(nanos, 9));
            && 0 < |frac| <= 9 && AllDigits(frac) && Value(frac) < SEC && Pow10(|frac|) <= SEC
            && Quotient(Times(Value(frac), SEC), Pow10(|frac|)) == nanos
  {
    var padded := Padded(nanos, 9);
    Pow10Nine();
    PaddedValue(nanos, 9);
    TrimmedExact(padded, nanos);
    Pow10Grows(|TrimZeros(padded)|, 9);
    DivideExactly(nanos, Pow10(|TrimZeros(padded)|));
  }

  /** Counts of a unit; the factors are the unit constants. */
  function Seconds(n: nat): nat { n * 1_000_000_000 }
  function Minutes(n: nat): nat { n * 60_000_000_000 }
  function Hours(n: nat): nat { n * 3_600_000_000_000 }

  lemma {:induction false} UnitValues(n: nat)
    ensures Times(n, 1) == n && Times(n, 1_000) == n * 1_000 && Times(n, 1_000_000) == n * 1_000_000
    ensures Times(n, 1_000_000_000) == Seconds(n) && Times(n, 60_000_000_000) == Minutes(n) && Times(n, 3_600_000_000_000) == Hours(n)
    decreases n
  {
    if n > 0 { UnitValues(n - 1); }
  }

  lemma FractionNumber(whole: seq<byte>, frac: seq<byte>, rest: seq<byte>)
    requires whole != [] && AllDigits(whole) && AllDigits(frac) && rest != [] && !IsDigit(rest[0])
    ensures ParseNumber(whole + ([DOT] + (frac + rest))) == Some(Number(whole, frac, rest))
  {
    var tail := [DOT] + (frac + rest);
    var s := whole + tail;
    RunOfDigits(whole, tail);
    RunOfDigits(frac, rest);
    assert s[..|whole|] == whole && s[|whole| + 1..] == frac + rest;
    assert (frac + rest)[..|frac|] == frac && (frac + rest)[|frac|..] == rest;
  }

  lemma SplitFraction(whole: seq<byte>, frac: seq<byte>)
    requires whole != [] && AllDigits(whole) && AllDigits(frac)
    ensures SplitTerm(whole + [DOT] + frac + [LETTER_S]) == Some(Parts(whole, frac, SEC, []))
  {
    assert whole + [DOT] + frac + [LETTER_S] == whole + ([DOT] + (frac + [LETTER_S]));
    FractionNumber(whole, frac, [LETTER_S]);
  }

  lemma FractionNanos(whole: seq<byte>, frac: seq<byte>, seconds: nat, nanos: nat)
    requires AllDigits(whole) && AllDigits(frac) && frac != [] && Value(whole) == seconds < 60
    requires Value(frac) < SEC && Pow10(|frac|) <= SEC && nanos < SEC
    requires Quotient(Times(Value(frac), SEC), Pow10(|frac|)) == nanos
    ensures TermNanos(whole, frac, SEC) == Some(Seconds(seconds) + nanos)
  {
    UnitValues(seconds);
    UnitValues(Value(frac));
  }

  lemma FractionCombined(whole: seq<byte>, frac: seq<byte>, v: int)
    requires whole != [] && AllDigits(whole) && AllDigits(frac) && TermNanos(whole, frac, SEC) == Some(v)
    ensures ParseTerm(whole + [DOT] + frac + [LETTER_S]) == Some(Term(v, []))
  {
    SplitFraction(whole, frac);
    Combined(whole + [DOT] + frac + [LETTER_S], Parts(whole, frac, SEC, []), v);
  }

  lemma FractionTerm(seconds: nat, nanos: nat)
    requires 0 < nanos < SEC && seconds < 60
    ensures ParseTerm(SecondsText(seconds, nanos)) == Some(Term(Seconds(seconds) + nanos, []))
  {
    FractionExact(nanos);
    ValueOfDigits(seconds);
    FractionNanos(Digits(seconds), TrimZeros(Padded(nanos, 9)), seconds, nanos);
    FractionCombined(Digits(seconds), TrimZeros(Padded(nanos, 9)), Seconds(seconds) + nanos);
  }

  /** Hours, minutes, seconds and nanoseconds of a count. */
  lemma Decomposed(n: nat)
    ensures n == Hours(n / HOUR) + Minutes(n % HOUR / MIN) + Seconds(n % HOUR % MIN / SEC) + n % HOUR % MIN % SEC
    ensures n % HOUR / MIN < 60 && n % HOUR % MIN / SEC < 60
  {
  }

  lemma SecondsTerm(seconds: nat, nanos: nat)
    requires nanos < SEC && seconds < 60
    ensures ParseTerm(SecondsText(seconds, nanos)) == Some(Term(Seconds(seconds) + nanos, []))
  {
    if nanos == 0 {
      assert Digits(seconds) + [LETTER_S] + [] == Digits(seconds) + [LETTER_S];
      assert [LETTER_S] + [] == [LETTER_S];
      UnitValues(seconds);
      WholeTerm(seconds, [LETTER_S], SEC, []);
    } else {
      FractionTerm(seconds, nanos);
    }
  }

  lemma UnitStart(rest: seq<byte>)
    requires rest != [] && IsDigit(rest[0])
    ensures ParseUnit([LETTER_M] + rest) == Some(Unit(MIN, 1)) && ParseUnit([LETTER_H] + rest) == Some(Unit(HOUR, 1))
  {
    assert ([LETTER_M] + rest)[1] != LETTER_S;
  }

  lemma ClockTerm(n: nat, rest: seq<byte>)
    requires Hours(n) <= I64_MAX + 1 && rest != [] && IsDigit(rest[0])
    ensures ParseTerm(Digits(n) + [LETTER_M] + rest) == Some(Term(Minutes(n), rest))
    ensures ParseTerm(Digits(n) + [LETTER_H] + rest) == Some(Term(Hours(n), rest))
  {
    UnitStart(rest);
    UnitValues(n);
    WholeTerm(n, [LETTER_M], MIN, rest);
    WholeTerm(n, [LETTER_H], HOUR, rest);
  }

  /** Terms that parse one by one add up. */
  lemma TermStep(parse: TermParser, s: seq<byte>, n: int, rest: seq<byte>, total: int)
    requires Shrinks(parse) && s != [] && parse(s) == Some(Term(n, rest)) && -I128_MAX - 1 <= total + n <= I128_MAX
    ensures ParseTerms(parse, s, total) == ParseTerms(parse, rest, total + n)
  {
  }

  lemma TermFails(parse: TermParser, s: seq<byte>, total: int)
    requires Shrinks(parse) && s != []
    requires parse(s).Some? ==> !(-I128_MAX - 1 <= total + parse(s).value.nanos <= I128_MAX)
    ensures ParseTerms(parse, s, total) == None
  {
  }

  lemma LastTerm(parse: TermParser, s: seq<byte>, n: nat, total: nat)
    requires Shrinks(parse) && s != [] && parse(s) == Some(Term(n, [])) && total + n <= I128_MAX
    ensures ParseTerms(parse, s, total) == Some(total + n)
  {
  }

  lemma HoursAndMinutes(parse: TermParser, text: seq<byte>, h: nat, mid: seq<byte>, m: nat, rest: seq<byte>)
    requires Shrinks(parse) && text != [] && mid != [] && h + m <= I128_MAX
    requires parse(text) == Some(Term(h, mid)) && parse(mid) == Some(Term(m, rest))
    ensures ParseTerms(parse, text, 0) == ParseTerms(parse, rest, h + m)
  {
    TermStep(parse, text, h, mid, 0);
    TermStep(parse, mid, m, rest, h);
  }

  lemma ClockTerms(parse: TermParser, hours: nat, minutes: nat, rest: seq<byte>)
    requires Shrinks(parse) && Hours(hours) <= I64_MAX + 1 && minutes < 60
    requires var mid := Digits(minutes) + [LETTER_M] + rest;
             parse(mid) == Some(Term(Minutes(minutes), rest))
             && parse(Digits(hours) + [LETTER_H] + mid) == Some(Term(Hours(hours), mid))
    ensures ParseTerms(parse, ClockText(hours, minutes) + rest, 0) == ParseTerms(parse, rest, Hours(hours) + Minutes(minutes))
  {
    var mid := Digits(minutes) + [LETTER_M] + rest;
    ClockThenRest(hours, minutes, rest);
    if hours > 0 {
      HoursAndMinutes(parse, Digits(hours) + [LETTER_H] + mid, Hours(hours), mid, Minutes(minutes), rest);
    } else if minutes > 0 {
      TermStep(parse, mid, Minutes(minutes), rest, 0);
    }
  }

  lemma ClockThenRest(hours: nat, minutes: nat, rest: seq<byte>)
    ensures var mid := Digits(minutes) + [LETTER_M] + rest;
            ClockText(hours, minutes) + rest ==
            if hours > 0 then Digits(hours) + [LETTER_H] + mid else if minutes > 0 then mid else rest
  {
  }


  lemma MillisTerm(q: nat)
    requires q < 1_000
    ensures ParseTerm(Digits(q) + [LETTER_M, LETTER_S]) == Some(Term(q * 1_000_000, []))
  {
    UnitValues(q);
    OneTerm(q, [LETTER_M, LETTER_S], MILLI);
  }

  lemma MicrosTerm(q: nat)
    requires q < 1_000_000
    ensures ParseTerm(Digits(q) + MICRO_SIGN + [LETTER_S]) == Some(Term(q * 1_000, []))
  {
    UnitValues(q);
    assert Digits(q) + MICRO_SIGN + [LETTER_S] == Digits(q) + (MICRO_SIGN + [LETTER_S]);
    OneTerm(q, MICRO_SIGN + [LETTER_S], MICRO);
  }

  lemma NanosTerm(q: nat)
    requires q < SEC
    ensures ParseTerm(Digits(q) + [LETTER_N, LETTER_S]) == Some(Term(q, []))
  {
    UnitValues(q);
    OneTerm(q, [LETTER_N, LETTER_S], 1);
  }

  lemma Multiple(n: nat, q: nat)
    ensures n % 1_000_000 == 0 && q == n / 1_000_000 ==> n == q * 1_000_000
    ensures n % 1_000 == 0 && q == n / 1_000 ==> n == q * 1_000
  {
  }

  lemma SubsecondTerm(n: nat)
    requires 0 < n < SEC
    ensures ParseTerm(SubsecondText(n)) == Some(Term(n, []))
  {
    if n % MILLI == 0 {
      Multiple(n, n / MILLI);
      MillisTerm(n / MILLI);
      assert SubsecondText(n) == Digits(n / MILLI) + [LETTER_M, LETTER_S];
    } else if n % MICRO == 0 {
      Multiple(n, n / MICRO);
      MicrosTerm(n / MICRO);
      assert SubsecondText(n) == Digits(n / MICRO) + MICRO_SIGN + [LETTER_S];
    } else {
      NanosTerm(n);
      assert SubsecondText(n) == Digits(n) + [LETTER_N, LETTER_S];
    }
  }

  lemma OneTerm(n: nat, unit: seq<byte>, u: nat)
    requires unit != [] && !IsDigit(unit[0]) && unit[0] != DOT && ParseUnit(unit) == Some(Unit(u, |unit|))
    requires Times(n, u) < SEC && n < SEC
    ensures ParseTerm(Digits(n) + unit) == Some(Term(Times(n, u), []))
  {
    assert unit + [] == unit && Digits(n) + unit + [] == Digits(n) + unit;
    WholeTerm(n, unit, u, []);
  }

  lemma StartsWithDigit(n: nat)
    ensures MagnitudeText(n) != [] && IsDigit(MagnitudeText(n)[0])
  {
  }

  /** Printed hours, minutes and seconds parse to their sum. */
  lemma ClockAddsUp(parse: TermParser, h: nat, m: nat, rest: seq<byte>, seconds: nat)
    requires Shrinks(parse) && m < 60 && Hours(h) <= I64_MAX + 1 && seconds < 60_000_000_000 && rest != []
    requires parse(rest) == Some(Term(seconds, []))
    requires var mid := Digits(m) + [LETTER_M] + rest;
             parse(mid) == Some(Term(Minutes(m), rest)) && parse(Digits(h) + [LETTER_H] + mid) == Some(Term(Hours(h), mid))
    ensures ParseTerms(parse, ClockText(h, m) + rest, 0) == Some(Hours(h) + Minutes(m) + seconds)
  {
    ClockTerms(parse, h, m, rest);
    LastTerm(parse, rest, seconds, Hours(h) + Minutes(m));
  }

  /** What a term parser must make of hours, minutes, seconds and nanoseconds. */
  ghost predicate ReadsClock(parse: TermParser, h: nat, m: nat, s: nat, f: nat) {
    var rest := SecondsText(s, f);
    var mid := Digits(m) + [LETTER_M] + rest;
    && parse(rest) == Some(Term(Seconds(s) + f, []))
    && parse(mid) == Some(Term(Minutes(m), rest)) && parse(Digits(h) + [LETTER_H] + mid) == Some(Term(Hours(h), mid))
  }

  ghost predicate ReadsTerms(parse: TermParser, n: nat) {
    if n < SEC then parse(MagnitudeText(n)) == Some(Term(n, []))
    else ReadsClock(parse, n / HOUR, n % HOUR / MIN, n % HOUR % MIN / SEC, n % HOUR % MIN % SEC)
  }

  lemma ClockRead(h: nat, m: nat, s: nat, f: nat)
    requires m < 60 && s < 60 && f < SEC && Hours(h) <= I64_MAX + 1
    ensures ReadsClock(ParseTerm, h, m, s, f)
  {
    var rest := SecondsText(s, f);
    SecondsTerm(s, f);
    ClockTerm(m, rest);
    ClockTerm(h, Digits(m) + [LETTER_M] + rest);
  }

  lemma ShortRead(n: nat)
    requires n < SEC
    ensures ParseTerm(MagnitudeText(n)) == Some(Term(n, []))
  {
    if n == 0 {
      assert Digits(0) + [LETTER_S] == [48, LETTER_S];
      OneTerm(0, [LETTER_S], SEC);
    } else {
      SubsecondTerm(n);
    }
  }

  lemma TermsRead(n: nat)
    requires n <= I64_MAX + 1
    ensures ReadsTerms(ParseTerm, n)
  {
    if n < SEC {
      ShortRead(n);
    } else {
      Decomposed(n);
      ClockRead(n / HOUR, n % HOUR / MIN, n % HOUR % MIN / SEC, n % HOUR % MIN % SEC);
    }
  }

  lemma MagnitudeParses(parse: TermParser, n: nat)
    requires n <= I64_MAX + 1 && Shrinks(parse) && ReadsTerms(parse, n)
    ensures ParseTerms(parse, MagnitudeText(n), 0) == Some(n)
  {
    if n < SEC {
      StartsWithDigit(n);
      LastTerm(parse, MagnitudeText(n), n, 0);
    } else {
      Decomposed(n);
      var s, f := n % HOUR % MIN / SEC, n % HOUR % MIN % SEC;
      ClockAddsUp(parse, n / HOUR, n % HOUR / MIN, SecondsText(s, f), Seconds(s) + f);
    }
  }

  lemma PrintedSign(n: int, m: nat)
    requires m == if n < 0 then -n else n
    ensures Print(n) != [] && Unsigned(Print(n)) == MagnitudeText(m) && (Print(n)[0] == MINUS <==> n < 0)
  {
    StartsWithDigit(m);
    if n < 0 { assert Print(n)[1..] == MagnitudeText(m); }
  }

  lemma MagnitudeTotal(m: nat)
    requires m <= I64_MAX + 1
    ensures Total(MagnitudeText(m)) == Some(m)
  {
    ParseTermShrinks();
    TermsRead(m);
    MagnitudeParses(ParseTerm, m);
  }

  /** Parsing a printed duration gives it back, for every 64-bit count. */
  lemma PrintParses(n: int)
    requires IsI64(n)
    ensures Parse(Print(n)) == Some(n)
  {
    var m: nat := if n < 0 then -n else n;
    MagnitudeTotal(m);
    PrintedSign(n, m);
    StartsWithDigit(m);
  }

  /* ----- a sum that wraps ----- */

  /** 170141183460469231731687303715884105.9us is read as a negative count. */
  lemma TermCanWrap(w: nat)
    requires w == 170_141_183_460_469_231_731_687_303_715_884_105
    ensures TermNanos(Digits(w), [57], MICRO) == Some(172 - I128_MAX - 1)
  {
    ValueOfDigits(w);
    TimesIs(w, MICRO);
    TimesIs(9, MICRO);
    assert Value([57]) == 9 && Pow10(1) == 10;
    DivideExactly(900, 10);
    TimesIs(900, 10);
  }

  /** Text that starts with a number of microseconds. */
  function MicrosText(whole: seq<byte>, frac: seq<byte>, rest: seq<byte>): seq<byte> {
    whole + ([DOT] + (frac + ([LETTER_U, LETTER_S] + rest)))
  }

  lemma SplitMicros(whole: seq<byte>, frac: seq<byte>, rest: seq<byte>)
    requires whole != [] && AllDigits(whole) && AllDigits(frac)
    ensures SplitTerm(MicrosText(whole, frac, rest)) == Some(Parts(whole, frac, MICRO, rest))
  {
    var unit := [LETTER_U, LETTER_S] + rest;
    FractionNumber(whole, frac, unit);
    assert unit[2..] == rest;
  }

  lemma TwoTerms(parse: TermParser, s: seq<byte>, a: int, mid: seq<byte>, b: int)
    requires Shrinks(parse) && s != [] && mid != [] && parse(s) == Some(Term(a, mid)) && parse(mid) == Some(Term(b, []))
    requires -I128_MAX - 1 <= a <= I128_MAX && -I128_MAX - 1 <= a + b <= I128_MAX
    ensures ParseTerms(parse, s, 0) == Some(a + b)
  {
    TermStep(parse, s, a, mid, 0);
    TermStep(parse, mid, b, [], a);
  }

  lemma LargestTerm(m: nat)
    requires m == I128_MAX
    ensures ParseTerm(Digits(m) + [LETTER_N, LETTER_S]) == Some(Term(m, []))
  {
    var unit := [LETTER_N, LETTER_S];
    UnitValues(m);
    assert unit + [] == unit && Digits(m) + unit + [] == Digits(m) + unit;
    WholeTerm(m, unit, 1, []);
  }

  lemma WrappedTerm(w: nat, rest: seq<byte>)
    requires w == 170_141_183_460_469_231_731_687_303_715_884_105
    ensures ParseTerm(MicrosText(Digits(w), [57], rest)) == Some(Term(172 - I128_MAX - 1, rest))
  {
    SplitMicros(Digits(w), [57], rest);
    TermCanWrap(w);
    Combined(MicrosText(Digits(w), [57], rest), Parts(Digits(w), [57], MICRO, rest), 172 - I128_MAX - 1);
  }

  lemma ParseTwo(s: seq<byte>, a: int, mid: seq<byte>, b: int)
    requires s != [] && IsDigit(s[0]) && mid != [] && ParseTerm(s) == Some(Term(a, mid)) && ParseTerm(mid) == Some(Term(b, []))
    requires -I128_MAX - 1 <= a <= I128_MAX && -I128_MAX - 1 <= a + b <= I128_MAX
    ensures Parse(s) == Signed(Some(a + b), false)
  {
    ParseTermShrinks();
    TwoTerms(ParseTerm, s, a, mid, b);
  }

  lemma MicrosStart(w: nat, frac: seq<byte>, rest: seq<byte>)
    ensures MicrosText(Digits(w), frac, rest) != [] && IsDigit(MicrosText(Digits(w), frac, rest)[0])
  {
    assert MicrosText(Digits(w), frac, rest)[0] == Digits(w)[0];
  }

  /**
    The condition of `ParseIsSum` is needed: this term and one of the largest count of
    nanoseconds, together far beyond 128 bits, parse to 171 nanoseconds.
  */
  lemma WrappedTextParses(w: nat, m: nat)
    requires w == 170_141_183_460_469_231_731_687_303_715_884_105 && m == I128_MAX
    ensures Parse(MicrosText(Digits(w), [57], Digits(m) + [LETTER_N, LETTER_S])) == Some(171)
  {
    var rest := Digits(m) + [LETTER_N, LETTER_S];
    WrappedTerm(w, rest);
    LargestTerm(m);
    MicrosStart(w, [57], rest);
    ParseTwo(MicrosText(Digits(w), [57], rest), 172 - I128_MAX - 1, rest, m);
  }

  /** So different durations print differently. */
  lemma PrintInjective(a: int, b: int)
    requires IsI64(a) && IsI64(b) && Print(a) == Print(b)
    ensures a == b
  {
    PrintParses(a);
    PrintParses(b);
  }
}
