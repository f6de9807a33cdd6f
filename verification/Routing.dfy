/**
  DNS rule evaluation (crates/dae-dns/src/routing.rs).

  Rules are stored flattened: consecutive match sets form an OR-group, groups form
  an AND-rule, and the `upstream` octet of each set says how it is joined to the
  next one (LOGICAL_OR, LOGICAL_AND) or, otherwise, is the rule's target.  The
  program evaluates the list in one pass with two flags.
*/
module Routing {
  import opened Bytes

  const LOGICAL_OR: byte := 0xFE
  const LOGICAL_AND: byte := 0xFF

  datatype MatchType = DomainSet | IpSet | QType | UpstreamIs | Fallback

  datatype MatchSet = MatchSet(kind: MatchType, value: nat, not: bool, upstream: byte)

  /* ----- the domain bitmap ----- */

  function Bit(word: nat, k: nat): bool {
    if k == 0 then word % 2 == 1 else Bit(word / 2, k - 1)
  }

  /** `bitmap_has`: bits beyond the bitmap are clear. */
  function BitmapHas(bitmap: seq<nat>, bit: nat): bool {
    if bit / 32 < |bitmap| then Bit(bitmap[bit / 32], bit % 32) else false
  }

  function Pack(bits: seq<bool>): nat {
    if bits == [] then 0 else 2 * Pack(bits[1..]) + if bits[0] then 1 else 0
  }

  /** Thirty-two bits to a word, lowest first. */
  function PackWords(bits: seq<bool>): seq<nat> {
    if |bits| <= 32 then [Pack(bits)] else [Pack(bits[..32])] + PackWords(bits[32..])
  }

  lemma {:induction false} PackedBit(bits: seq<bool>, k: nat)
    ensures Bit(Pack(bits), k) == (k < |bits| && bits[k])
    decreases k + |bits|
  {
    if bits == [] {
      if k > 0 { PackedBit(bits, k - 1); }
    } else {
      var w := Pack(bits);
      assert w / 2 == Pack(bits[1..]);
      if k > 0 { PackedBit(bits[1..], k - 1); }
    }
  }

  /** A bit is reported set exactly when it is set in the bit list the words were packed from. */
  lemma {:induction false} BitmapHasPacked(bits: seq<bool>, i: nat)
    ensures BitmapHas(PackWords(bits), i) == (i < |bits| && bits[i])
    decreases |bits|
  {
    if |bits| <= 32 {
      PackedBit(bits, i % 32);
    } else if i < 32 {
      PackedBit(bits[..32], i);
    } else {
      BitmapHasPacked(bits[32..], i - 32);
      assert (i - 32) / 32 == i / 32 - 1 && (i - 32) % 32 == i % 32;
    }
  }

  /* ----- per-set matching ----- */

  function RequestHit(m: MatchSet, index: nat, qtype: nat, bitmap: seq<nat>): bool {
    match m.kind
    case DomainSet => BitmapHas(bitmap, index)
    case QType => qtype == m.value
    case Fallback => true
    case IpSet => false
    case UpstreamIs => false
  }

  /** A prefix is the set of addresses it contains. */
  type Prefix = set<nat>

  function ResponseHit(m: MatchSet, index: nat, qtype: nat, ips: seq<nat>, upstream: byte, bitmap: seq<nat>,
                       lpmSets: seq<seq<Prefix>>): bool {
    match m.kind
    case DomainSet => BitmapHas(bitmap, index)
    case IpSet => m.value < |lpmSets| && exists ip, p :: ip in ips && p in lpmSets[m.value] && ip in p
    case QType => qtype == m.value
    case UpstreamIs => upstream == m.value
    case Fallback => true
  }

  /* ----- the grouped meaning ----- */

  /** The set ends its OR-group. */
  predicate EndsGroup(sets: seq<MatchSet>, i: nat)
    requires i < |sets|
  {
    sets[i].upstream != LOGICAL_OR
  }

  /** The set ends its rule and names the target: `upstream & 0xFE != 0xFE`. */
  predicate EndsRule(sets: seq<MatchSet>, i: nat)
    requires i < |sets|
  {
    sets[i].upstream < LOGICAL_OR
  }

  /** First set of the OR-group that set `i` belongs to. */
  function GroupStart(sets: seq<MatchSet>, i: nat): (r: nat)
    requires i <= |sets|
    ensures r <= i
  {
    if i == 0 || EndsGroup(sets, i - 1) then i else GroupStart(sets, i - 1)
  }

  /** First set of the rule that set `i` belongs to. */
  function RuleStart(sets: seq<MatchSet>, i: nat): (r: nat)
    requires i <= |sets|
    ensures r <= i
  {
    if i == 0 || EndsRule(sets, i - 1) then i else RuleStart(sets, i - 1)
  }

  predicate AnyHit(hits: seq<bool>, lo: nat, hi: nat)
    requires hi <= |hits|
  {
    exists m :: lo <= m < hi && hits[m]
  }

  /** The group ending at `g` holds: some member hits, negated by the `not` of its last member. */
  predicate GroupHolds(sets: seq<MatchSet>, hits: seq<bool>, g: nat)
    requires g < |sets| == |hits|
  {
    AnyHit(hits, GroupStart(sets, g), g + 1) != sets[g].not
  }

  /** Every group that ends in `lo..hi` holds. */
  predicate GroupsHold(sets: seq<MatchSet>, hits: seq<bool>, lo: nat, hi: nat)
    requires hi <= |sets| == |hits|
  {
    forall g :: lo <= g < hi && EndsGroup(sets, g) ==> GroupHolds(sets, hits, g)
  }

  /** The rule ending at `e` holds: each of its groups does. */
  predicate RuleHolds(sets: seq<MatchSet>, hits: seq<bool>, e: nat)
    requires e < |sets| == |hits|
  {
    GroupsHold(sets, hits, RuleStart(sets, e), e + 1)
  }

  predicate Wins(sets: seq<MatchSet>, hits: seq<bool>, e: nat)
    requires e < |sets| == |hits|
  {
    EndsRule(sets, e) && RuleHolds(sets, hits, e)
  }

  lemma GroupsHoldSnoc(sets: seq<MatchSet>, hits: seq<bool>, lo: nat, i: nat)
    requires lo <= i < |sets| == |hits|
    ensures GroupsHold(sets, hits, lo, i + 1)
            <==> GroupsHold(sets, hits, lo, i) && (EndsGroup(sets, i) ==> GroupHolds(sets, hits, i))
  {
  }

  /** The right answer: the target of the first rule that holds, or None when no terminated rule does. */
  ghost predicate Answers(sets: seq<MatchSet>, hits: seq<bool>, r: Option<byte>)
    requires |sets| == |hits|
  {
    match r
    case None => forall e :: 0 <= e < |sets| ==> !Wins(sets, hits, e)
    case Some(u) => exists e: nat :: FirstWin(sets, hits, e) && u == sets[e].upstream
  }

  ghost predicate FirstWin(sets: seq<MatchSet>, hits: seq<bool>, e: nat)
    requires |sets| == |hits|
  {
    e < |sets| && Wins(sets, hits, e) && forall d :: 0 <= d < e ==> !Wins(sets, hits, d)
  }

  /* ----- the one-pass evaluation ----- */

  /**
    The loop shared by `match_request_with_bitmap` and `match_response_with_bitmap`,
    `hits` being what each set answers for the query.
  */
  method MatchLoop(sets: seq<MatchSet>, hits: seq<bool>) returns (r: Option<byte>)
    requires |sets| == |hits|
    ensures Answers(sets, hits, r)
  {
    var goodSubrule, badRule := false, false;
    for i := 0 to |sets|
      invariant forall e :: 0 <= e < i ==> !Wins(sets, hits, e)
      invariant badRule <==> !GroupsHold(sets, hits, RuleStart(sets, i), i)
      invariant goodSubrule <==> !badRule && AnyHit(hits, GroupStart(sets, i), i)
    {
      if !badRule && !goodSubrule && hits[i] {
        goodSubrule := true;
      }
      var upstream := sets[i].upstream;
      GroupsHoldSnoc(sets, hits, RuleStart(sets, i), i);
      assert goodSubrule <==> !badRule && AnyHit(hits, GroupStart(sets, i), i + 1);
      if upstream != LOGICAL_OR {
        if goodSubrule == sets[i].not {
          badRule := true;
        }
        goodSubrule := false;
      }
      assert badRule <==> !GroupsHold(sets, hits, RuleStart(sets, i), i + 1);
      if upstream < LOGICAL_OR {
        if !badRule {
          assert FirstWin(sets, hits, i);
          return Some(upstream);
        }
        badRule := false;
      }
    }
    return None;
  }

  function RequestHits(sets: seq<MatchSet>, qtype: nat, bitmap: seq<nat>): (hits: seq<bool>)
    ensures |hits| == |sets|
  {
    seq(|sets|, i requires 0 <= i < |sets| => RequestHit(sets[i], i, qtype, bitmap))
  }

  function ResponseHits(sets: seq<MatchSet>, qtype: nat, ips: seq<nat>, upstream: byte, bitmap: seq<nat>,
                        lpmSets: seq<seq<Prefix>>): (hits: seq<bool>)
    ensures |hits| == |sets|
  {
    seq(|sets|, i requires 0 <= i < |sets| => ResponseHit(sets[i], i, qtype, ips, upstream, bitmap, lpmSets))
  }

  /** `match_request_with_bitmap`. */
  method MatchRequest(sets: seq<MatchSet>, qtype: nat, bitmap: seq<nat>) returns (r: Option<byte>)
    ensures Answers(sets, RequestHits(sets, qtype, bitmap), r)
  {
    r := MatchLoop(sets, RequestHits(sets, qtype, bitmap));
  }

  /** `match_response_with_bitmap`. */
  method MatchResponse(sets: seq<MatchSet>, qtype: nat, ips: seq<nat>, upstream: byte, bitmap: seq<nat>,
                       lpmSets: seq<seq<Prefix>>) returns (r: Option<byte>)
    ensures Answers(sets, ResponseHits(sets, qtype, ips, upstream, bitmap, lpmSets), r)
  {
    r := MatchLoop(sets, ResponseHits(sets, qtype, ips, upstream, bitmap, lpmSets));
  }

  /** The answer is unique, so the relation determines the loop's result. */
  lemma AnswerUnique(sets: seq<MatchSet>, hits: seq<bool>, a: Option<byte>, b: Option<byte>)
    requires |sets| == |hits| && Answers(sets, hits, a) && Answers(sets, hits, b)
    ensures a == b
  {
    if a.Some? && b.Some? {
      var e: nat :| FirstWin(sets, hits, e) && a.value == sets[e].upstream;
      var f: nat :| FirstWin(sets, hits, f) && b.value == sets[f].upstream;
      assert e == f;
    }
  }

  /**
    A last set standing alone in its rule and always hitting, such as a fallback:
    when no earlier rule holds, evaluation succeeds if and only if that set names a
    real target and is not negated.
  */
  lemma FallbackDecides(sets: seq<MatchSet>, hits: seq<bool>, r: Option<byte>)
    requires |sets| == |hits| && sets != [] && Answers(sets, hits, r)
    requires hits[|sets| - 1] && (|sets| == 1 || EndsRule(sets, |sets| - 2))
    requires forall e :: 0 <= e < |sets| - 1 ==> !Wins(sets, hits, e)
    ensures r.Some? <==> EndsRule(sets, |sets| - 1) && !sets[|sets| - 1].not
    ensures r.Some? ==> r.value == sets[|sets| - 1].upstream
  {
    var last := |sets| - 1;
    assert RuleStart(sets, last) == last == GroupStart(sets, last);
    assert AnyHit(hits, last, last + 1);
    assert GroupHolds(sets, hits, last) <==> !sets[last].not;
    assert Wins(sets, hits, last) <==> EndsRule(sets, last) && !sets[last].not;
  }

  /** With such a final set every query is answered. */
  lemma FallbackMakesTotal(sets: seq<MatchSet>, hits: seq<bool>, r: Option<byte>)
    requires |sets| == |hits| && sets != [] && Answers(sets, hits, r)
    requires hits[|sets| - 1] && (|sets| == 1 || EndsRule(sets, |sets| - 2))
    requires EndsRule(sets, |sets| - 1) && !sets[|sets| - 1].not
    ensures r.Some?
  {
    if r.None? { FallbackDecides(sets, hits, r); }
  }
}
