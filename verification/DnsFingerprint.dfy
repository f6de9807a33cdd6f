/**
  The fingerprint that must agree before a response is reused
  (`DnsRequestReuse::from_request`, crates/dae-dns/src/reuse.rs).
*/
module DnsFingerprint {
  import opened Bytes
  import opened DnsReuse
  import opened DnsRestore

  /** UDP payload size, version and flags of the EDNS record. */
  datatype Edns = Edns(size: nat, version: byte, flags: nat)

  datatype Fingerprint = Fingerprint(flags: nat, edns: Option<Edns>)

  /** No flag but RD, AD and CD (mask 0x0130). */
  predicate PlainFlags(hi: byte, lo: byte) {
    hi <= 1 && lo < 64 && lo % 16 == 0
  }

  /** Root owner, type OPT, no extended code, no flag but DO, no options. */
  predicate PlainOpt(rr: seq<byte>) {
    && |rr| == 11
    && rr[..3] == [0, 0, 41] && rr[5] == 0 && rr[9..11] == [0, 0]
    && (rr[7] == 0 || rr[7] == 128) && rr[8] == 0
  }

  /** `from_request`. */
  function FromRequest(v: View): Option<Fingerprint>
    requires |v.packet| >= HEADER && v.AnswerOffset() <= |v.packet|
  {
    var p := v.packet;
    var flags := U16(p[2], p[3]);
    if |v.ends| != 1 || !PlainFlags(p[2], p[3]) || p[6..10] != [0, 0, 0, 0] then None
    else
      var additional := U16(p[10], p[11]);
      var rr := p[v.AnswerOffset()..];
      if additional == 0 && rr == [] then Some(Fingerprint(flags, None))
      else if additional == 1 && PlainOpt(rr) then
        Some(Fingerprint(flags, Some(Edns(U16(rr[3], rr[4]), rr[6], U16(rr[7], rr[8])))))
      else None
  }

  /** Equal past the identifier, but for the case of letters in the question name. */
  predicate SameRequest(a: View, b: View) {
    && |a.ends| == 1 && a.ends == b.ends && InBounds(a, 0) && InBounds(b, 0)
    && a.packet[2..HEADER] == b.packet[2..HEADER]
    && SameUpToCase(a.packet[HEADER..a.ends[0]], b.packet[HEADER..a.ends[0]])
    && a.packet[a.ends[0]..] == b.packet[a.ends[0]..]
  }

  lemma OneQuestion(v: View)
    requires Parsed(v) && |v.ends| == 1
    ensures InBounds(v, 0) && v.packet[4] == 0 && v.packet[5] == 1
  {
    assert QuestionAt(Plain, v.packet, HEADER, v.ends, 0);
  }

  lemma SameOpt(a: seq<byte>, b: seq<byte>)
    requires PlainOpt(a) && PlainOpt(b)
    ensures U16(a[3], a[4]) == U16(b[3], b[4]) && a[6] == b[6] && U16(a[7], a[8]) == U16(b[7], b[8]) <==> a == b
  {
    U16Injective(a[3], a[4], b[3], b[4]);
    U16Injective(a[7], a[8], b[7], b[8]);
    assert a[0] == a[..3][0] && a[1] == a[..3][1] && a[2] == a[..3][2] && a[9] == a[9..11][0] && a[10] == a[9..11][1];
    assert b[0] == b[..3][0] && b[1] == b[..3][1] && b[2] == b[..3][2] && b[9] == b[9..11][0] && b[10] == b[9..11][1];
  }

  /** The header past the identifier, as the fingerprint sees it. */
  lemma HeaderKnown(v: View)
    requires Parsed(v) && |v.ends| == 1 && v.AnswerOffset() <= |v.packet| && FromRequest(v).Some?
    ensures var p := v.packet;
            && InBounds(v, 0)
            && U16(p[2], p[3]) == FromRequest(v).value.flags
            && p[4..HEADER] == [0, 1, 0, 0, 0, 0, 0, if FromRequest(v).value.edns.None? then 0 else 1]
  {
    OneQuestion(v);
    var p := v.packet;
    assert p[6] == p[6..10][0] && p[7] == p[6..10][1] && p[8] == p[6..10][2] && p[9] == p[6..10][3];
    var additional: byte := if FromRequest(v).value.edns.None? then 0 else 1;
    U16Injective(p[10], p[11], 0, additional);
  }

  lemma SameTail(a: View, b: View)
    requires Parsed(a) && Parsed(b) && a.AnswerOffset() <= |a.packet| && b.AnswerOffset() <= |b.packet|
    requires FromRequest(a).Some? && FromRequest(a) == FromRequest(b)
    ensures a.packet[a.AnswerOffset()..] == b.packet[b.AnswerOffset()..]
  {
    var x, y := a.packet[a.AnswerOffset()..], b.packet[b.AnswerOffset()..];
    if FromRequest(a).value.edns.Some? { SameOpt(x, y); }
  }

  lemma FingerprintForces(a: View, b: View)
    requires Parsed(a) && Parsed(b) && a.AnswerOffset() <= |a.packet| && b.AnswerOffset() <= |b.packet|
    requires FromRequest(a).Some? && FromRequest(a) == FromRequest(b) && SameQuestions(a, b)
    ensures SameRequest(a, b)
  {
    HeaderKnown(a);
    HeaderKnown(b);
    SameOffsets(a, b, 1);
    SameTail(a, b);
    assert SameQuestion(a, b, 0);
    var p, q, e := a.packet, b.packet, a.ends[0];
    assert a.ends == [e] == b.ends;
    U16Injective(p[2], p[3], q[2], q[3]);
    assert p[2..HEADER] == [p[2], p[3]] + p[4..HEADER];
    assert q[2..HEADER] == [q[2], q[3]] + q[4..HEADER];
    assert p[e..] == p[e..e + 4] + p[e + 4..];
    assert q[e..] == q[e..e + 4] + q[e + 4..];
  }

  lemma SameRequestAsks(a: View, b: View)
    requires SameRequest(a, b)
    ensures SameQuestions(a, b) && |a.packet| == |b.packet|
    ensures a.AnswerOffset() == b.AnswerOffset() <= |a.packet|
    ensures a.packet[a.AnswerOffset()..] == b.packet[a.AnswerOffset()..]
  {
    var p, q, e := a.packet, b.packet, a.ends[0];
    assert p[e..e + 4] == p[e..][..4] && q[e..e + 4] == q[e..][..4];
    assert p[e + 4..] == p[e..][4..] && q[e + 4..] == q[e..][4..];
    assert SameQuestion(a, b, 0);
    assert |p[e..]| == |q[e..]|;
  }

  lemma SameRequestForces(a: View, b: View)
    requires SameRequest(a, b)
    ensures a.AnswerOffset() <= |a.packet| && b.AnswerOffset() <= |b.packet| && FromRequest(a) == FromRequest(b)
  {
    SameRequestAsks(a, b);
    var p, q := a.packet, b.packet;
    assert forall i :: 2 <= i < HEADER ==> p[i] == p[2..HEADER][i - 2] && q[i] == q[2..HEADER][i - 2];
    assert p[6..10] == q[6..10];
  }

  /**
    Two requests share fingerprint and question exactly when they are the same
    octets, but for the identifier and the case of the name's letters.
  */
  lemma FingerprintExactly(a: View, b: View)
    requires Parsed(a) && Parsed(b) && a.AnswerOffset() <= |a.packet| && b.AnswerOffset() <= |b.packet|
    requires FromRequest(a).Some?
    ensures FromRequest(a) == FromRequest(b) && SameQuestions(a, b) <==> SameRequest(a, b)
  {
    if SameRequest(a, b) {
      SameRequestAsks(a, b);
      SameRequestForces(a, b);
    } else if FromRequest(a) == FromRequest(b) && SameQuestions(a, b) {
      FingerprintForces(a, b);
    }
  }

  /** A response that may be restored for one request may be restored for any that asks the same. */
  lemma ReuseServes(a: View, b: View, p: seq<byte>)
    requires Parsed(a) && Parsed(b) && SameQuestions(a, b)
    ensures Accepts(a, p) <==> Accepts(b, p)
  {
    if Parse(p).Some? {
      var v := Parse(p).value;
      ParsedExactly(v);
      RestorableExactly(a, v);
      RestorableExactly(b, v);
      QuestionsSymmetric(a, b);
      QuestionsTransitive(b, a, v);
      QuestionsTransitive(a, b, v);
    }
  }

  lemma QuestionsSymmetric(a: View, b: View)
    requires SameQuestions(a, b)
    ensures SameQuestions(b, a)
  {
    forall k | 0 <= k < |a.ends| ensures SameQuestion(b, a, k) { assert SameQuestion(a, b, k); }
  }

  lemma QuestionsTransitive(a: View, b: View, c: View)
    requires SameQuestions(a, b)
    ensures SameQuestions(b, c) ==> SameQuestions(a, c)
  {
    if SameQuestions(b, c) {
      forall k | 0 <= k < |a.ends| ensures SameQuestion(a, c, k) {
        assert SameQuestion(a, b, k) && SameQuestion(b, c, k);
      }
    }
  }
}
