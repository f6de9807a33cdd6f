/**
  Which octets of a packet a name depends on.  Edits that leave those octets alone,
  or only change the case of letters, leave the name's meaning alone; this is what
  in-place edits of cached packets rely on.
*/
module DnsReads {
  import opened Bytes
  import opened DnsName
  import opened DnsRoundTrip

  /** A way to find where the name at an offset ends. */
  type NameEnd = (seq<byte>, nat) -> Option<nat>

  /** What the octet at `offset` makes the decoder do next. */
  datatype Move = Bad | End | Jump(target: nat) | Pass(next: nat)

  function NextMove(p: seq<byte>, offset: nat, scope: nat, compressed: bool, jumps: nat): (m: Move)
    ensures m.Jump? ==> offset + 1 < |p| && jumps < MAX_JUMPS
    ensures m.Pass? ==> offset + 1 < m.next <= |p|
  {
    if offset >= |p| then Bad
    else
      var len := p[offset];
      if len >= 0xc0 then
        if !compressed || offset + 1 >= |p| || offset + 2 > scope || jumps >= MAX_JUMPS then Bad
        else Jump(PointerTarget(len, p[offset + 1]))
      else if len >= 0x40 || offset + 1 + len > |p| || offset + 1 + len > scope then Bad
      else if len == 0 then End
      else Pass(offset + 1 + len)
  }

  lemma ExpandByMove(p: seq<byte>, offset: nat, scope: nat, compressed: bool, jumps: nat)
    requires jumps <= MAX_JUMPS
    ensures Expand(p, offset, scope, compressed, jumps) ==
      match NextMove(p, offset, scope, compressed, jumps)
      case Bad => None
      case End => Some(Expansion([], offset + 1))
      case Jump(t) =>
        (match Expand(p, t, |p|, compressed, jumps + 1)
         case None => None
         case Some(x) => Some(Expansion(x.labels, offset + 2)))
      case Pass(n) =>
        match Expand(p, n, scope, compressed, jumps)
        case None => None
        case Some(x) => Some(Expansion([p[offset + 1..n]] + x.labels, x.end))
  {
  }

  /** Octets that decide the structure of the name: length octets and both octets of each pointer. */
  function Structure(p: seq<byte>, offset: nat, scope: nat, compressed: bool, jumps: nat): set<nat>
    requires jumps <= MAX_JUMPS
    decreases MAX_JUMPS - jumps, |p| - offset
  {
    match NextMove(p, offset, scope, compressed, jumps)
    case Bad => {offset}
    case End => {offset}
    case Jump(t) => {offset, offset + 1} + Structure(p, t, |p|, compressed, jumps + 1)
    case Pass(n) => {offset} + Structure(p, n, scope, compressed, jumps)
  }

  /** The second octets of the pointers followed. */
  function PointerTails(p: seq<byte>, offset: nat, scope: nat, compressed: bool, jumps: nat): set<nat>
    requires jumps <= MAX_JUMPS
    decreases MAX_JUMPS - jumps, |p| - offset
  {
    match NextMove(p, offset, scope, compressed, jumps)
    case Bad => {}
    case End => {}
    case Jump(t) => {offset + 1} + PointerTails(p, t, |p|, compressed, jumps + 1)
    case Pass(n) => PointerTails(p, n, scope, compressed, jumps)
  }

  function Span(lo: nat, hi: nat): (r: set<nat>)
    ensures forall i :: i in r <==> lo <= i < hi
    decreases hi - lo
  {
    if lo >= hi then {} else {lo} + Span(lo + 1, hi)
  }

  /** Octets inside the labels. */
  function Contents(p: seq<byte>, offset: nat, scope: nat, compressed: bool, jumps: nat): set<nat>
    requires jumps <= MAX_JUMPS
    decreases MAX_JUMPS - jumps, |p| - offset
  {
    match NextMove(p, offset, scope, compressed, jumps)
    case Bad => {}
    case End => {}
    case Jump(t) => Contents(p, t, |p|, compressed, jumps + 1)
    case Pass(n) => Span(offset + 1, n) + Contents(p, n, scope, compressed, jumps)
  }

  function Touched(p: seq<byte>, offset: nat, scope: nat, compressed: bool, jumps: nat): set<nat>
    requires jumps <= MAX_JUMPS
  {
    Structure(p, offset, scope, compressed, jumps) + Contents(p, offset, scope, compressed, jumps)
  }

  /** Two packets agree on a set of positions: exactly on `exact`, up to case on the others. */
  ghost predicate Agree(p: seq<byte>, q: seq<byte>, touched: set<nat>, exact: set<nat>) {
    && |p| == |q|
    && (forall i :: i in touched && i < |p| ==> Lower(p[i]) == Lower(q[i]))
    && (forall i :: i in exact && i < |p| ==> p[i] == q[i])
  }

  lemma AgreeSubset(p: seq<byte>, q: seq<byte>, t: set<nat>, e: set<nat>, t': set<nat>, e': set<nat>)
    requires Agree(p, q, t, e) && t' <= t && e' <= e
    ensures Agree(p, q, t', e')
  {
  }

  /** Both malformed, or the same end and the same labels up to case. */
  ghost predicate SameName(a: Option<Expansion>, b: Option<Expansion>) {
    && (a.Some? <==> b.Some?)
    && (a.Some? ==> a.value.end == b.value.end && LowerLabels(a.value.labels) == LowerLabels(b.value.labels))
  }

  lemma ConsSame(l: seq<byte>, m: seq<byte>, a: seq<seq<byte>>, b: seq<seq<byte>>)
    requires LowerAll(l) == LowerAll(m) && LowerLabels(a) == LowerLabels(b)
    ensures LowerLabels([l] + a) == LowerLabels([m] + b)
  {
    assert LowerLabels([l] + a) == [LowerAll(l)] + LowerLabels(a);
    assert LowerLabels([m] + b) == [LowerAll(m)] + LowerLabels(b);
  }

  lemma SameMove(p: seq<byte>, q: seq<byte>, offset: nat, scope: nat, compressed: bool, jumps: nat)
    requires |p| == |q| && (offset < |p| ==> Lower(p[offset]) == Lower(q[offset]))
    requires NextMove(p, offset, scope, compressed, jumps).Jump? ==> p[offset + 1] == q[offset + 1]
    ensures NextMove(q, offset, scope, compressed, jumps) == NextMove(p, offset, scope, compressed, jumps)
  {
  }

  /**
    Changing only the case of letters in what a name reads, and none of the
    pointer tails, preserves the name: a letter is never a length or a pointer.
  */
  lemma {:induction false} CaseChangeKeepsName(p: seq<byte>, q: seq<byte>, offset: nat, scope: nat, compressed: bool, jumps: nat)
    requires jumps <= MAX_JUMPS
    requires Agree(p, q, Touched(p, offset, scope, compressed, jumps), PointerTails(p, offset, scope, compressed, jumps))
    ensures SameName(Expand(p, offset, scope, compressed, jumps), Expand(q, offset, scope, compressed, jumps))
    decreases MAX_JUMPS - jumps, |p| - offset
  {
    var touched := Touched(p, offset, scope, compressed, jumps);
    var tails := PointerTails(p, offset, scope, compressed, jumps);
    assert offset in touched;
    SameMove(p, q, offset, scope, compressed, jumps);
    match NextMove(p, offset, scope, compressed, jumps) {
      case Bad => Stops(p, q, offset, scope, compressed, jumps);
      case End => Stops(p, q, offset, scope, compressed, jumps);
      case Jump(t) =>
        AgreeSubset(p, q, touched, tails, Touched(p, t, |p|, compressed, jumps + 1), PointerTails(p, t, |p|, compressed, jumps + 1));
        CaseChangeKeepsName(p, q, t, |p|, compressed, jumps + 1);
        Jumps(p, q, offset, scope, compressed, jumps, t);
      case Pass(n) =>
        AgreeSubset(p, q, touched, tails, Touched(p, n, scope, compressed, jumps), PointerTails(p, n, scope, compressed, jumps));
        CaseChangeKeepsName(p, q, n, scope, compressed, jumps);
        SliceSame(p, q, touched, tails, offset + 1, n);
        Passes(p, q, offset, scope, compressed, jumps, n);
    }
  }

  lemma Stops(p: seq<byte>, q: seq<byte>, offset: nat, scope: nat, compressed: bool, jumps: nat)
    requires jumps <= MAX_JUMPS
    requires NextMove(p, offset, scope, compressed, jumps) == NextMove(q, offset, scope, compressed, jumps)
    requires NextMove(p, offset, scope, compressed, jumps).Bad? || NextMove(p, offset, scope, compressed, jumps).End?
    ensures SameName(Expand(p, offset, scope, compressed, jumps), Expand(q, offset, scope, compressed, jumps))
  {
    ExpandByMove(p, offset, scope, compressed, jumps);
    ExpandByMove(q, offset, scope, compressed, jumps);
  }

  lemma Jumps(p: seq<byte>, q: seq<byte>, offset: nat, scope: nat, compressed: bool, jumps: nat, t: nat)
    requires jumps < MAX_JUMPS && |p| == |q|
    requires NextMove(p, offset, scope, compressed, jumps) == NextMove(q, offset, scope, compressed, jumps) == Jump(t)
    requires SameName(Expand(p, t, |p|, compressed, jumps + 1), Expand(q, t, |q|, compressed, jumps + 1))
    ensures SameName(Expand(p, offset, scope, compressed, jumps), Expand(q, offset, scope, compressed, jumps))
  {
    ExpandByMove(p, offset, scope, compressed, jumps);
    ExpandByMove(q, offset, scope, compressed, jumps);
  }

  lemma Passes(p: seq<byte>, q: seq<byte>, offset: nat, scope: nat, compressed: bool, jumps: nat, n: nat)
    requires jumps <= MAX_JUMPS && |p| == |q|
    requires NextMove(p, offset, scope, compressed, jumps) == NextMove(q, offset, scope, compressed, jumps) == Pass(n)
    requires LowerAll(p[offset + 1..n]) == LowerAll(q[offset + 1..n])
    requires SameName(Expand(p, n, scope, compressed, jumps), Expand(q, n, scope, compressed, jumps))
    ensures SameName(Expand(p, offset, scope, compressed, jumps), Expand(q, offset, scope, compressed, jumps))
  {
    ExpandByMove(p, offset, scope, compressed, jumps);
    ExpandByMove(q, offset, scope, compressed, jumps);
    var a, b := Expand(p, n, scope, compressed, jumps), Expand(q, n, scope, compressed, jumps);
    if a.Some? { ConsSame(p[offset + 1..n], q[offset + 1..n], a.value.labels, b.value.labels); }
  }

  lemma SliceSame(p: seq<byte>, q: seq<byte>, touched: set<nat>, tails: set<nat>, lo: nat, hi: nat)
    requires Agree(p, q, touched, tails) && lo <= hi <= |p| && Span(lo, hi) <= touched
    ensures LowerAll(p[lo..hi]) == LowerAll(q[lo..hi])
  {
    forall i | lo <= i < hi ensures Lower(p[i]) == Lower(q[i]) { assert i in Span(lo, hi); }
  }

  ghost predicate Same(p: seq<byte>, q: seq<byte>, touched: set<nat>) {
    |p| == |q| && forall i :: i in touched && i < |p| ==> p[i] == q[i]
  }

  lemma SameSlice(p: seq<byte>, q: seq<byte>, touched: set<nat>, lo: nat, hi: nat)
    requires Same(p, q, touched) && lo <= hi <= |p| && Span(lo, hi) <= touched
    ensures p[lo..hi] == q[lo..hi]
  {
    forall i | lo <= i < hi ensures p[i] == q[i] { assert i in Span(lo, hi); }
  }

  /** A name is unchanged, labels and all, when every octet it reads is. */
  lemma {:induction false} UntouchedKeepsName(p: seq<byte>, q: seq<byte>, offset: nat, scope: nat, compressed: bool, jumps: nat)
    requires jumps <= MAX_JUMPS && Same(p, q, Touched(p, offset, scope, compressed, jumps))
    ensures Expand(p, offset, scope, compressed, jumps) == Expand(q, offset, scope, compressed, jumps)
    decreases MAX_JUMPS - jumps, |p| - offset
  {
    var touched := Touched(p, offset, scope, compressed, jumps);
    assert offset in touched;
    var move := NextMove(p, offset, scope, compressed, jumps);
    if move.Jump? { assert offset + 1 in touched; }
    SameMove(p, q, offset, scope, compressed, jumps);
    if move.Jump? {
      assert Touched(p, move.target, |p|, compressed, jumps + 1) <= touched;
      UntouchedKeepsName(p, q, move.target, |p|, compressed, jumps + 1);
    } else if move.Pass? {
      assert Touched(p, move.next, scope, compressed, jumps) <= touched;
      UntouchedKeepsName(p, q, move.next, scope, compressed, jumps);
      SameSlice(p, q, touched, offset + 1, move.next);
    }
    SameExpansion(p, q, offset, scope, compressed, jumps);
  }

  lemma SameExpansion(p: seq<byte>, q: seq<byte>, offset: nat, scope: nat, compressed: bool, jumps: nat)
    requires jumps <= MAX_JUMPS && |p| == |q|
    requires NextMove(p, offset, scope, compressed, jumps) == NextMove(q, offset, scope, compressed, jumps)
    requires match NextMove(p, offset, scope, compressed, jumps)
             case Jump(t) => Expand(p, t, |p|, compressed, jumps + 1) == Expand(q, t, |q|, compressed, jumps + 1)
             case Pass(n) =>
               p[offset + 1..n] == q[offset + 1..n]
               && Expand(p, n, scope, compressed, jumps) == Expand(q, n, scope, compressed, jumps)
             case _ => true
    ensures Expand(p, offset, scope, compressed, jumps) == Expand(q, offset, scope, compressed, jumps)
  {
    ExpandByMove(p, offset, scope, compressed, jumps);
    ExpandByMove(q, offset, scope, compressed, jumps);
  }
}
