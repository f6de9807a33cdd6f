/**
  The duration parser and printer as they work, step by step
  (crates/dae-config-util/src/duration.rs).
*/
module DurationText {
  import opened Bytes
  import opened Decimal
  import opened Duration

  method ScanDigits(bytes: seq<byte>, index: nat) returns (next: nat)
    requires index <= |bytes|
    ensures next == index + DigitRun(bytes[index..])
  {
    next := index;
    while next < |bytes| && IsDigit(bytes[next])
      invariant index <= next <= |bytes|
      invariant DigitRun(bytes[index..]) == next - index + DigitRun(bytes[next..])
    {
      assert bytes[next..][1..] == bytes[next + 1..];
      next := next + 1;
    }
  }

  /** Where the whole part and the whole number at `index` end. */
  method ScanNumber(bytes: seq<byte>, index: nat) returns (ok: bool, wholeEnd: nat, end: nat)
    requires index <= |bytes|
    ensures ok <==> ParseNumber(bytes[index..]).Some?
    ensures ok ==> index <= wholeEnd <= end <= |bytes|
    ensures ok ==> ParseNumber(bytes[index..]).value ==
                   Number(bytes[index..wholeEnd], if end > wholeEnd then bytes[wholeEnd + 1..end] else [], bytes[end..])
  {
    wholeEnd := ScanDigits(bytes, index);
    end := wholeEnd;
    if wholeEnd < |bytes| && bytes[wholeEnd] == DOT {
      end := ScanDigits(bytes, wholeEnd + 1);
      DottedAt(bytes, index, wholeEnd, end);
      if end == wholeEnd + 1 && wholeEnd == index { return false, wholeEnd, end; }
    } else {
      UndottedAt(bytes, index, wholeEnd);
      if wholeEnd == index { return false, wholeEnd, end; }
    }
    return true, wholeEnd, end;
  }

  lemma DottedAt(bytes: seq<byte>, index: nat, w: nat, end: nat)
    requires index <= w < end <= |bytes| && bytes[w] == DOT
    requires w == index + DigitRun(bytes[index..]) && end == w + 1 + DigitRun(bytes[w + 1..])
    ensures ParseNumber(bytes[index..]) ==
            if w == index && end == w + 1 then None else Some(Number(bytes[index..w], bytes[w + 1..end], bytes[end..]))
  {
    NumberSlices(bytes, index, w, end);
    DottedNumber(bytes[index..], w - index, end - w - 1, Number(bytes[index..w], bytes[w + 1..end], bytes[end..]));
  }

  lemma NumberSlices(bytes: seq<byte>, index: nat, w: nat, end: nat)
    requires index <= w < end <= |bytes|
    ensures var s := bytes[index..];
            && s[w - index] == bytes[w] && s[..w - index] == bytes[index..w]
            && s[w - index + 1..] == bytes[w + 1..] == bytes[w + 1..end] + bytes[end..]
  {
  }

  lemma UndottedAt(bytes: seq<byte>, index: nat, w: nat)
    requires index <= w <= |bytes| && (w < |bytes| ==> bytes[w] != DOT) && w == index + DigitRun(bytes[index..])
    ensures ParseNumber(bytes[index..]) == if w == index then None else Some(Number(bytes[index..w], [], bytes[w..]))
  {
    Slices(bytes, index, w);
  }

  lemma Slices(s: seq<byte>, i: nat, j: nat)
    requires i <= j <= |s|
    ensures s[i..][..j - i] == s[i..j] && s[i..][j - i..] == s[j..]
    ensures j < |s| ==> s[i..][j - i] == s[j]
  {
  }

  /** Split the term at `index`; `next` is where the rest begins. */
  method SplitAt(bytes: seq<byte>, index: nat) returns (r: Option<Parts>, next: nat)
    requires index < |bytes|
    ensures r == SplitTerm(bytes[index..])
    ensures r.Some? ==> index < next <= |bytes| && r.value.rest == bytes[next..]
  {
    next := index;
    var ok, wholeEnd, end := ScanNumber(bytes, index);
    if !ok { return None, next; }
    var unit := ParseUnit(bytes[end..]);
    if unit.None? { return None, next; }
    next := end + unit.value.length;
    assert bytes[end..][unit.value.length..] == bytes[next..];
    var frac := if end > wholeEnd then bytes[wholeEnd + 1..end] else [];
    r := Some(Parts(bytes[index..wholeEnd], frac, unit.value.nanos, bytes[next..]));
  }

  method ParseOneTerm(bytes: seq<byte>, index: nat) returns (r: Option<int>, next: nat)
    requires index < |bytes|
    ensures r.Some? <==> ParseTerm(bytes[index..]).Some?
    ensures r.Some? ==> index < next <= |bytes| && ParseTerm(bytes[index..]).value == Term(r.value, bytes[next..])
  {
    var parts;
    parts, next := SplitAt(bytes, index);
    if parts.None? { return None, next; }
    r := TermNanos(parts.value.whole, parts.value.frac, parts.value.unit);
  }

  /** One turn of the loop over the terms. */
  method AddTerm(input: seq<byte>, index: nat, total: int) returns (ok: bool, next: nat, sum: int)
    requires index < |input| && Shrinks(ParseTerm)
    ensures !ok ==> ParseTerms(ParseTerm, input[index..], total) == None
    ensures ok ==> index < next <= |input|
    ensures ok ==> ParseTerms(ParseTerm, input[index..], total) == ParseTerms(ParseTerm, input[next..], sum)
  {
    var nanos;
    sum := total;
    nanos, next := ParseOneTerm(input, index);
    if nanos.None? || !(-I128_MAX - 1 <= total + nanos.value <= I128_MAX) {
      TermFails(ParseTerm, input[index..], total);
      return false, next, sum;
    }
    TermStep(ParseTerm, input[index..], nanos.value, input[next..], total);
    return true, next, total + nanos.value;
  }

  /** The loop over the terms. */
  method SumTerms(input: seq<byte>, start: nat) returns (r: Option<int>)
    requires start <= |input|
    ensures r == Total(input[start..])
  {
    ParseTermShrinks();
    var index, total := start, 0;
    while index < |input|
      invariant index <= |input|
      invariant ParseTerms(ParseTerm, input[start..], 0) == ParseTerms(ParseTerm, input[index..], total)
      decreases |input| - index
    {
      var ok;
      ok, index, total := AddTerm(input, index, total);
      if !ok { return None; }
    }
    return Some(total);
  }

  /** `parse_duration`. */
  method ParseDuration(input: seq<byte>) returns (r: Option<int>)
    ensures r == Parse(input)
  {
    if |input| == 0 { return None; }
    var index, negative := 0, false;
    if input[index] == PLUS || input[index] == MINUS {
      negative := input[index] == MINUS;
      index := index + 1;
      if index == |input| { return None; }
    }
    assert input[index..] == Unsigned(input);
    var total := SumTerms(input, index);
    if total.None? { return None; }
    var signed := if negative then -total.value else total.value;
    if !IsI64(signed) { return None; }
    return Some(signed);
  }

  /** `write_seconds_fraction`. */
  method WriteSecondsFraction(seconds: nat, nanos: nat) returns (out: seq<byte>)
    requires 0 < nanos
    ensures out == SecondsText(seconds, nanos)
  {
    var frac := Padded(nanos, 9);
    while frac != [] && frac[|frac| - 1] == 48
      invariant TrimZeros(frac) == TrimZeros(Padded(nanos, 9))
      decreases |frac|
    {
      frac := frac[..|frac| - 1];
    }
    return Digits(seconds) + [DOT] + frac + [LETTER_S];
  }

  method WriteClock(nanos: nat) returns (out: seq<byte>, rest: nat)
    ensures out == ClockText(nanos / HOUR, nanos % HOUR / MIN) && rest == nanos % HOUR % MIN
  {
    var hours := nanos / HOUR;
    rest := nanos % HOUR;
    var minutes := rest / MIN;
    rest := rest % MIN;
    out := [];
    if hours > 0 {
      out := Digits(hours) + [LETTER_H];
      out := out + Digits(minutes) + [LETTER_M];
    } else if minutes > 0 {
      out := Digits(minutes) + [LETTER_M];
    }
  }

  /** `Display for ConfigDuration`. */
  method Format(duration: int) returns (out: seq<byte>)
    ensures out == Print(duration)
  {
    out := [];
    var nanos: nat := if duration < 0 then -duration else duration;
    if duration < 0 { out := [MINUS]; }
    if nanos == 0 { return out + [48, LETTER_S]; }
    if nanos < SEC { return out + SubsecondText(nanos); }
    var clock, rest := WriteClock(nanos);
    var seconds := rest / SEC;
    rest := rest % SEC;
    var tail := Digits(seconds) + [LETTER_S];
    if rest != 0 { tail := WriteSecondsFraction(seconds, rest); }
    return out + (clock + tail);
  }
}
