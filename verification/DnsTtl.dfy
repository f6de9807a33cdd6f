/**
  Rewriting TTL fields of a packet in place (crates/dae-dns/src/hot_path.rs and
  crates/dae-dns/src/hot_path/negative.rs): before a response is cached its answer
  TTLs are zeroed, and when it is served its TTLs are capped.

  The loop decodes each owner name from the buffer it is modifying, and a later
  name may point back into octets already overwritten.  The theorems say that the
  fields rewritten are nevertheless those a walk over the original octets finds.
*/
module DnsTtl {
  import opened Bytes
  import opened DnsName
  import opened DnsReads
  import DnsReuse

  const OPT := 41

  /** A big-endian 32-bit field. */
  function U32(w: seq<byte>): nat
    requires |w| == 4
  {
    U16(w[0], w[1]) * 0x1_0000 + U16(w[2], w[3])
  }

  /** What to write into a TTL field; the cap is given by its big-endian octets. */
  datatype Edit = Zero | Cap(limit: seq<byte>)

  predicate EditOk(edit: Edit) {
    edit.Cap? ==> |edit.limit| == 4
  }

  /** The TTL a record of type `kind` ends up with; an OPT pseudo-record keeps its field when capping. */
  function NewTtl(edit: Edit, kind: nat, ttl: seq<byte>): (r: seq<byte>)
    requires EditOk(edit) && |ttl| == 4
    ensures |r| == 4
  {
    match edit
    case Zero => [0, 0, 0, 0]
    case Cap(limit) => if kind == OPT || U32(ttl) <= U32(limit) then ttl else limit
  }

  /** Four octets of `p` replaced. */
  function Write4(p: seq<byte>, i: nat, w: seq<byte>): (r: seq<byte>)
    requires i + 4 <= |p| && |w| == 4
    ensures |r| == |p| && r[i..i + 4] == w
    ensures forall j :: 0 <= j < |p| && !(i <= j < i + 4) ==> r[j] == p[j]
  {
    p[..i] + w + p[i + 4..]
  }

  /** The packet with the TTL of the record whose owner name ends at `e` rewritten. */
  function EditRecord(p: seq<byte>, e: nat, edit: Edit): (r: seq<byte>)
    requires EditOk(edit)
  {
    if e + 10 > |p| then p else Write4(p, e + 4, NewTtl(edit, U16At(p, e), p[e + 4..e + 8]))
  }

  /** A change to one record, given where its owner name ends. */
  type RecordEdit = (seq<byte>, nat) -> seq<byte>

  /** Only the four TTL octets may change. */
  ghost predicate TtlOnly(change: RecordEdit) {
    forall p, e: nat :: |change(p, e)| == |p| && Same4(p, change(p, e), e)
  }

  ghost predicate Same4(p: seq<byte>, q: seq<byte>, e: nat)
    requires |p| == |q|
  {
    forall i :: 0 <= i < |p| && !(e + 4 <= i < e + 8) ==> p[i] == q[i]
  }

  function Editor(edit: Edit): (r: RecordEdit)
    requires EditOk(edit)
    ensures TtlOnly(r)
  {
    (p, e) => EditRecord(p, e, edit)
  }

  /** As the program does: decode the whole name, following pointers. */
  function Scanned(p: seq<byte>, offset: nat): Option<nat> {
    match NameAt(p, offset, |p|, true)
    case None => None
    case Some(x) => Some(x.end)
  }

  /** Where a name ends at its own location, not looking behind pointers. */
  function Skipped(p: seq<byte>, offset: nat): (r: Option<nat>)
    decreases |p| - offset
  {
    match NextMove(p, offset, |p|, true, 0)
    case Bad => None
    case End => Some(offset + 1)
    case Jump(_) => Some(offset + 2)
    case Pass(n) => Skipped(p, n)
  }

  /** The record at `offset` has room for its fixed fields and its data. */
  predicate RecordFits(p: seq<byte>, e: nat) {
    e + 10 <= |p| && e + 10 + U16At(p, e + 8) <= |p|
  }

  function RecordEnd(p: seq<byte>, e: nat): nat
    requires RecordFits(p, e)
  {
    e + 10 + U16At(p, e + 8)
  }

  /** The walk the program makes, decoding from the packet as modified so far. */
  function EditRecords(end: NameEnd, change: RecordEdit, p: seq<byte>, offset: nat, count: nat): (r: Option<seq<byte>>)
    decreases count
  {
    if count == 0 then Some(p)
    else
      match end(p, offset)
      case None => None
      case Some(e) =>
        if !RecordFits(p, e) then None
        else EditRecords(end, change, change(p, e), RecordEnd(p, e), count - 1)
  }

  /** The ends of the owner names of `count` records, the packet left as it is. */
  function OwnerEnds(end: NameEnd, p: seq<byte>, offset: nat, count: nat): (r: Option<seq<nat>>)
    decreases count
  {
    if count == 0 then Some([])
    else
      match end(p, offset)
      case None => None
      case Some(e) =>
        if !RecordFits(p, e) then None
        else
          match OwnerEnds(end, p, RecordEnd(p, e), count - 1)
          case None => None
          case Some(rest) => Some([e] + rest)
  }

  predicate InBounds(ends: seq<nat>, len: nat) {
    forall k :: 0 <= k < |ends| ==> ends[k] + 10 <= len
  }

  /** All TTL fields of the given records rewritten. */
  function EditAll(change: RecordEdit, p: seq<byte>, ends: seq<nat>): (r: seq<byte>)
    decreases |ends|
  {
    if ends == [] then p else EditAll(change, change(p, ends[0]), ends[1..])
  }

  /* ----- the walk does not depend on what it overwrites ----- */

  ghost predicate SameFrom(p: seq<byte>, q: seq<byte>, offset: nat) {
    |p| == |q| && forall i :: offset <= i < |p| ==> p[i] == q[i]
  }

  /** The end found depends only on octets from the offset on, and lies beyond the offset. */
  ghost predicate Local(end: NameEnd) {
    && (forall p, q, o: nat :: SameFrom(p, q, o) ==> end(p, o) == end(q, o))
    && (forall p, o: nat :: end(p, o).Some? ==> o < end(p, o).value)
  }

  ghost predicate Refines(scan: NameEnd, skip: NameEnd) {
    forall p, o: nat :: scan(p, o).Some? ==> scan(p, o) == skip(p, o)
  }

  lemma {:induction false} OwnerEndsLocal(end: NameEnd, p: seq<byte>, q: seq<byte>, offset: nat, count: nat)
    requires Local(end) && SameFrom(p, q, offset)
    ensures OwnerEnds(end, p, offset, count) == OwnerEnds(end, q, offset, count)
    decreases count
  {
    if count > 0 {
      match end(p, offset) {
        case None =>
        case Some(e) =>
          assert RecordFits(p, e) <==> RecordFits(q, e);
          if RecordFits(p, e) { OwnerEndsLocal(end, p, q, RecordEnd(p, e), count - 1); }
      }
    }
  }

  lemma EditAllCons(change: RecordEdit, p: seq<byte>, e: nat, rest: seq<nat>)
    ensures EditAll(change, p, [e] + rest) == EditAll(change, change(p, e), rest)
  {
    assert ([e] + rest)[1..] == rest;
  }

  /**
    When the walk succeeds, it found the records that the original octets give,
    and rewrote exactly their TTL fields, for any decoder that agrees with a local
    skip where it succeeds.
  */
  lemma {:induction false} WalkEditsOriginal(scan: NameEnd, skip: NameEnd, change: RecordEdit, p: seq<byte>, offset: nat, count: nat)
    requires Local(skip) && Refines(scan, skip) && TtlOnly(change) && EditRecords(scan, change, p, offset, count).Some?
    ensures OwnerEnds(skip, p, offset, count).Some?
    ensures EditRecords(scan, change, p, offset, count).value == EditAll(change, p, OwnerEnds(skip, p, offset, count).value)
    decreases count
  {
    if count > 0 {
      var e := scan(p, offset).value;
      assert skip(p, offset) == Some(e);
      var p', next := change(p, e), RecordEnd(p, e);
      WalkEditsOriginal(scan, skip, change, p', next, count - 1);
      assert SameFrom(p, p', next);
      OwnerEndsLocal(skip, p, p', next, count - 1);
      EditAllCons(change, p, e, OwnerEnds(skip, p, next, count - 1).value);
    }
  }

  lemma {:induction false} SkippedLocal(p: seq<byte>, q: seq<byte>, offset: nat)
    requires SameFrom(p, q, offset)
    ensures Skipped(p, offset) == Skipped(q, offset)
    ensures Skipped(p, offset).Some? ==> offset < Skipped(p, offset).value
    decreases |p| - offset
  {
    match NextMove(p, offset, |p|, true, 0) {
      case Bad =>
      case End =>
      case Jump(_) =>
      case Pass(n) => SkippedLocal(p, q, n);
    }
  }

  lemma {:induction false} ExpandEndsWhereSkipped(p: seq<byte>, offset: nat, jumps: nat)
    requires jumps < MAX_JUMPS && Expand(p, offset, |p|, true, jumps).Some?
    ensures Skipped(p, offset) == Some(Expand(p, offset, |p|, true, jumps).value.end)
    decreases |p| - offset
  {
    ExpandByMove(p, offset, |p|, true, jumps);
    match NextMove(p, offset, |p|, true, jumps) {
      case End =>
      case Jump(_) =>
      case Pass(n) => ExpandEndsWhereSkipped(p, n, jumps);
    }
  }

  lemma SkippedIsLocal()
    ensures Local(Skipped) && Refines(Scanned, Skipped)
  {
    forall p: seq<byte>, q: seq<byte>, o: nat | SameFrom(p, q, o) ensures Skipped(p, o) == Skipped(q, o) {
      SkippedLocal(p, q, o);
    }
    forall p: seq<byte>, o: nat | Skipped(p, o).Some? ensures o < Skipped(p, o).value {
      SkippedLocal(p, p, o);
    }
    forall p: seq<byte>, o: nat | Scanned(p, o).Some? ensures Scanned(p, o) == Skipped(p, o) {
      ExpandEndsWhereSkipped(p, o, 0);
    }
  }

  /** The program's walk, names decoded from the half-edited packet, edits the records of the original packet. */
  lemma EditsOriginalRecords(p: seq<byte>, offset: nat, count: nat, edit: Edit)
    requires EditOk(edit) && EditRecords(Scanned, Editor(edit), p, offset, count).Some?
    ensures OwnerEnds(Skipped, p, offset, count).Some?
    ensures EditRecords(Scanned, Editor(edit), p, offset, count).value
            == EditAll(Editor(edit), p, OwnerEnds(Skipped, p, offset, count).value)
  {
    SkippedIsLocal();
    WalkEditsOriginal(Scanned, Skipped, Editor(edit), p, offset, count);
  }

  /* ----- exactly the TTL fields ----- */

  /** Records do not overlap: each owner name ends more than ten octets after the previous one. */
  ghost predicate Spaced(ends: seq<nat>, lo: nat, len: nat) {
    && InBounds(ends, len)
    && (forall k :: 0 <= k < |ends| ==> lo < ends[k])
    && (forall j, k :: 0 <= j < k < |ends| ==> ends[j] + 10 < ends[k])
  }

  /** Octet `i` belongs to the TTL field of one of the records. */
  ghost predicate InTtl(ends: seq<nat>, i: int) {
    exists k :: 0 <= k < |ends| && ends[k] + 4 <= i < ends[k] + 8
  }

  /** `q` is `p` with the TTL field of every record, and nothing else, replaced by its new value. */
  ghost predicate TtlsRewritten(p: seq<byte>, q: seq<byte>, ends: seq<nat>, edit: Edit)
    requires EditOk(edit) && InBounds(ends, |p|)
  {
    && |q| == |p|
    && (forall i :: 0 <= i < |p| && !InTtl(ends, i) ==> q[i] == p[i])
    && (forall k :: 0 <= k < |ends| ==> TtlIs(p, q, ends[k], edit))
  }

  predicate TtlIs(p: seq<byte>, q: seq<byte>, e: nat, edit: Edit)
    requires EditOk(edit) && e + 10 <= |p| == |q|
  {
    q[e + 4..e + 8] == NewTtl(edit, U16At(p, e), p[e + 4..e + 8])
  }

  lemma {:induction false} OwnerEndsSpaced(end: NameEnd, p: seq<byte>, offset: nat, count: nat)
    requires Local(end) && OwnerEnds(end, p, offset, count).Some?
    ensures |OwnerEnds(end, p, offset, count).value| == count
    ensures Spaced(OwnerEnds(end, p, offset, count).value, offset, |p|)
    decreases count
  {
    if count > 0 {
      var e := end(p, offset).value;
      OwnerEndsSpaced(end, p, RecordEnd(p, e), count - 1);
    }
  }

  lemma InTtlCons(e: nat, rest: seq<nat>, i: int)
    ensures InTtl([e] + rest, i) <==> e + 4 <= i < e + 8 || InTtl(rest, i)
  {
    var ends := [e] + rest;
    if e + 4 <= i < e + 8 { assert ends[0] == e; }
    if InTtl(rest, i) {
      var k :| 0 <= k < |rest| && rest[k] + 4 <= i < rest[k] + 8;
      assert ends[k + 1] == rest[k];
    }
  }

  /** Later records lie wholly behind this one's TTL. */
  lemma LaterRecords(e: nat, rest: seq<nat>, lo: nat, len: nat, k: nat)
    requires Spaced([e] + rest, lo, len) && k < |rest|
    ensures e + 10 < rest[k] && rest[k] + 10 <= len
  {
    var ends := [e] + rest;
    assert ends[0] + 10 < ends[k + 1];
  }

  lemma OwnTtl(p: seq<byte>, q: seq<byte>, e: nat, f: nat, edit: Edit)
    requires EditOk(edit) && e + 10 < f && f + 10 <= |p|
    requires |q| == |p| && TtlIs(EditRecord(p, e, edit), q, f, edit)
    ensures TtlIs(p, q, f, edit)
  {
    var r := EditRecord(p, e, edit);
    assert r[f + 4..f + 8] == p[f + 4..f + 8] && U16At(r, f) == U16At(p, f);
  }

  lemma HeadTtl(p: seq<byte>, e: nat, rest: seq<nat>, lo: nat, q: seq<byte>, edit: Edit)
    requires EditOk(edit) && Spaced([e] + rest, lo, |p|) && e + 10 <= |p| == |q|
    requires forall i :: 0 <= i < |p| && !InTtl(rest, i) ==> q[i] == EditRecord(p, e, edit)[i]
    ensures TtlIs(p, q, e, edit)
  {
    forall i | e + 4 <= i < e + 8 ensures !InTtl(rest, i) {
      if InTtl(rest, i) {
        var k :| 0 <= k < |rest| && rest[k] + 4 <= i < rest[k] + 8;
        LaterRecords(e, rest, lo, |p|, k);
      }
    }
    assert q[e + 4..e + 8] == EditRecord(p, e, edit)[e + 4..e + 8];
  }

  lemma OtherTtl(p: seq<byte>, e: nat, rest: seq<nat>, lo: nat, q: seq<byte>, edit: Edit, k: nat)
    requires EditOk(edit) && Spaced([e] + rest, lo, |p|) && InBounds(rest, |p|) && e + 10 <= |p|
    requires TtlsRewritten(EditRecord(p, e, edit), q, rest, edit) && k < |rest|
    ensures e + 10 < rest[k] && rest[k] + 10 <= |p| && TtlIs(p, q, rest[k], edit)
  {
    LaterRecords(e, rest, lo, |p|, k);
    OwnTtl(p, q, e, rest[k], edit);
  }

  lemma OutsideTtls(p: seq<byte>, e: nat, rest: seq<nat>, q: seq<byte>, edit: Edit, i: nat)
    requires EditOk(edit) && InBounds(rest, |p|) && e + 10 <= |p|
    requires TtlsRewritten(EditRecord(p, e, edit), q, rest, edit) && i < |p| && !InTtl([e] + rest, i)
    ensures q[i] == p[i]
  {
    InTtlCons(e, rest, i);
  }

  lemma RewrittenCons(p: seq<byte>, e: nat, rest: seq<nat>, lo: nat, q: seq<byte>, edit: Edit)
    requires EditOk(edit) && Spaced([e] + rest, lo, |p|) && Spaced(rest, lo, |p|) && e + 10 <= |p|
    requires TtlsRewritten(EditRecord(p, e, edit), q, rest, edit)
    ensures TtlsRewritten(p, q, [e] + rest, edit)
  {
    var ends := [e] + rest;
    HeadTtl(p, e, rest, lo, q, edit);
    forall i | 0 <= i < |p| && !InTtl(ends, i) ensures q[i] == p[i] { OutsideTtls(p, e, rest, q, edit, i); }
    forall k | 0 <= k < |ends| ensures TtlIs(p, q, ends[k], edit) {
      if k > 0 { OtherTtl(p, e, rest, lo, q, edit, k - 1); }
    }
  }


  lemma {:induction false} EditAllRewrites(p: seq<byte>, ends: seq<nat>, lo: nat, edit: Edit)
    requires EditOk(edit) && Spaced(ends, lo, |p|)
    ensures TtlsRewritten(p, EditAll(Editor(edit), p, ends), ends, edit)
    decreases |ends|
  {
    if ends != [] {
      var e, rest := ends[0], ends[1..];
      assert ends == [e] + rest;
      SpacedTail(e, rest, lo, |p|);
      var p' := EditRecord(p, e, edit);
      EditAllRewrites(p', rest, lo, edit);
      RewrittenCons(p, e, rest, lo, EditAll(Editor(edit), p', rest), edit);
      EditAllCons(Editor(edit), p, e, rest);
    }
  }

  lemma SpacedTail(e: nat, rest: seq<nat>, lo: nat, len: nat)
    requires Spaced([e] + rest, lo, len)
    ensures Spaced(rest, lo, len) && e + 10 <= len
  {
    var ends := [e] + rest;
    assert ends[0] == e;
    forall j, k | 0 <= j < k < |rest| ensures rest[j] + 10 < rest[k] {
      assert ends[j + 1] + 10 < ends[k + 1];
    }
    forall k | 0 <= k < |rest| ensures lo < rest[k] && rest[k] + 10 <= len {
      assert ends[k + 1] == rest[k];
    }
  }

  /**
    The main result: a successful walk changes nothing but the TTL fields of the
    records the original packet holds, each to its prescribed value.
  */
  lemma SuccessRewritesTtls(p: seq<byte>, offset: nat, count: nat, edit: Edit)
    requires EditOk(edit) && EditRecords(Scanned, Editor(edit), p, offset, count).Some?
    ensures OwnerEnds(Skipped, p, offset, count).Some?
    ensures var ends := OwnerEnds(Skipped, p, offset, count).value;
            && |ends| == count && Spaced(ends, offset, |p|)
            && TtlsRewritten(p, EditRecords(Scanned, Editor(edit), p, offset, count).value, ends, edit)
  {
    EditsOriginalRecords(p, offset, count, edit);
    SkippedIsLocal();
    OwnerEndsSpaced(Skipped, p, offset, count);
    EditAllRewrites(p, OwnerEnds(Skipped, p, offset, count).value, offset, edit);
  }

  /** A name keeps its labels if every TTL octet it reads, if it reads any, kept its value. */
  lemma TtlRewriteKeepsNames(p: seq<byte>, q: seq<byte>, ends: seq<nat>, edit: Edit, offset: nat, scope: nat, compressed: bool)
    requires EditOk(edit) && InBounds(ends, |p|) && TtlsRewritten(p, q, ends, edit)
    requires forall i :: i in Touched(p, offset, scope, compressed, 0) && 0 <= i < |p| && InTtl(ends, i) ==> p[i] == q[i]
    ensures NameAt(p, offset, scope, compressed) == NameAt(q, offset, scope, compressed)
  {
    UntouchedKeepsName(p, q, offset, scope, compressed, 0);
  }

  /** The end found depends only on the octets up to it. */
  ghost predicate Bounded(end: NameEnd) {
    forall p, q, o: nat :: end(p, o).Some? && SameBetween(p, q, o, end(p, o).value) ==> end(q, o) == end(p, o)
  }

  ghost predicate SameBetween(p: seq<byte>, q: seq<byte>, lo: nat, hi: nat) {
    |p| == |q| && forall i :: lo <= i < hi && i < |p| ==> p[i] == q[i]
  }

  lemma {:induction false} SkippedBounded(p: seq<byte>, q: seq<byte>, offset: nat)
    requires Skipped(p, offset).Some? && SameBetween(p, q, offset, Skipped(p, offset).value)
    ensures Skipped(q, offset) == Skipped(p, offset)
    decreases |p| - offset
  {
    SkippedLocal(p, p, offset);
    match NextMove(p, offset, |p|, true, 0) {
      case End =>
      case Jump(_) =>
      case Pass(n) =>
        SkippedLocal(p, p, n);
        SkippedBounded(p, q, n);
    }
  }

  lemma {:induction false} StableWalk(end: NameEnd, p: seq<byte>, q: seq<byte>, offset: nat, count: nat, ends: seq<nat>)
    requires Local(end) && Bounded(end) && OwnerEnds(end, p, offset, count) == Some(ends) && |q| == |p|
    requires forall i :: offset <= i < |p| && !InTtl(ends, i) ==> q[i] == p[i]
    ensures OwnerEnds(end, q, offset, count) == Some(ends)
    decreases count
  {
    if count > 0 {
      var e := end(p, offset).value;
      var next := RecordEnd(p, e);
      var rest := OwnerEnds(end, p, next, count - 1).value;
      OwnerEndsSpaced(end, p, offset, count);
      forall i | offset <= i < |p| && (i < e + 4 || e + 8 <= i < e + 10) ensures q[i] == p[i] {
        InTtlCons(e, rest, i);
        if InTtl(rest, i) {
          var k :| 0 <= k < |rest| && rest[k] + 4 <= i < rest[k] + 8;
          LaterRecords(e, rest, offset, |p|, k);
        }
      }
      assert SameBetween(p, q, offset, e);
      assert end(q, offset) == Some(e);
      forall i | next <= i < |p| && !InTtl(rest, i) ensures q[i] == p[i] { InTtlCons(e, rest, i); }
      StableWalk(end, p, q, next, count - 1, rest);
    }
  }

  /** Rewriting TTLs moves nothing: the same records are found again afterwards. */
  lemma RecordsStay(p: seq<byte>, q: seq<byte>, offset: nat, count: nat, ends: seq<nat>, edit: Edit)
    requires EditOk(edit) && OwnerEnds(Skipped, p, offset, count) == Some(ends) && InBounds(ends, |p|)
    requires TtlsRewritten(p, q, ends, edit)
    ensures OwnerEnds(Skipped, q, offset, count) == Some(ends)
  {
    SkippedIsLocal();
    forall p: seq<byte>, q: seq<byte>, o: nat | Skipped(p, o).Some? && SameBetween(p, q, o, Skipped(p, o).value)
      ensures Skipped(q, o) == Skipped(p, o)
    {
      SkippedBounded(p, q, o);
    }
    StableWalk(Skipped, p, q, offset, count, ends);
  }

  /** A record's type is not part of any TTL field. */
  lemma TypeKept(p: seq<byte>, q: seq<byte>, ends: seq<nat>, lo: nat, edit: Edit, k: nat)
    requires EditOk(edit) && Spaced(ends, lo, |p|) && TtlsRewritten(p, q, ends, edit) && k < |ends|
    ensures U16At(q, ends[k]) == U16At(p, ends[k])
  {
    assert forall i :: ends[k] <= i < ends[k] + 2 ==> !InTtl(ends, i);
  }

  lemma CapCap(kind: nat, ttl: seq<byte>, first: seq<byte>, second: seq<byte>)
    requires |first| == |second| == |ttl| == 4 && U32(second) <= U32(first)
    ensures NewTtl(Cap(second), kind, NewTtl(Cap(first), kind, ttl)) == NewTtl(Cap(second), kind, ttl)
  {
    if U32(ttl) > U32(first) && U32(first) == U32(second) { U32Injective(first, second); }
  }

  lemma U32Injective(a: seq<byte>, b: seq<byte>)
    requires |a| == |b| == 4 && U32(a) == U32(b)
    ensures a == b
  {
    assert U16(a[0], a[1]) == U16(b[0], b[1]) && U16(a[2], a[3]) == U16(b[2], b[3]);
    U16Injective(a[0], a[1], b[0], b[1]);
    U16Injective(a[2], a[3], b[2], b[3]);
  }

  /** Capping a packet again with a smaller limit is the same as capping the original with it. */
  lemma CapAgain(p: seq<byte>, q: seq<byte>, r: seq<byte>, ends: seq<nat>, lo: nat, first: seq<byte>, second: seq<byte>)
    requires |first| == |second| == 4 && U32(second) <= U32(first)
    requires Spaced(ends, lo, |p|) && TtlsRewritten(p, q, ends, Cap(first)) && TtlsRewritten(q, r, ends, Cap(second))
    ensures TtlsRewritten(p, r, ends, Cap(second))
  {
    forall k | 0 <= k < |ends| ensures TtlIs(p, r, ends[k], Cap(second)) {
      assert TtlIs(p, q, ends[k], Cap(first)) && TtlIs(q, r, ends[k], Cap(second));
      TypeKept(p, q, ends, lo, Cap(first), k);
      CapCap(U16At(p, ends[k]), p[ends[k] + 4..ends[k] + 8], first, second);
    }
  }

  /**
    The condition of `TtlRewriteKeepsNames` matters: here the owner name of the
    second record points into the TTL of the first, and zeroing that TTL turns the
    name from `x.` into the root, though it still ends at the same place.
  */
  lemma NameInsideTtl(p: seq<byte>)
    requires p == [0, 0, 1, 0, 1, 1, 120, 0, 0, 0, 0, 0xc0, 5, 0, 1, 0, 1, 0, 0, 0, 0, 0, 0]
    ensures var q := EditRecord(p, 1, Zero);
            && NameAt(p, 11, |p|, true) == Some(Expansion([[120]], 13))
            && NameAt(q, 11, |q|, true) == Some(Expansion([], 13))
  {
    var q := EditRecord(p, 1, Zero);
    LabelBehindPointer(p);
    assert q[5] == q[5..9][0] == 0;
    RootBehindPointer(q);
  }

  lemma LabelBehindPointer(p: seq<byte>)
    requires |p| == 23 && p[5] == 1 && p[6] == 120 && p[7] == 0 && p[11] == 0xc0 && p[12] == 5
    ensures NameAt(p, 11, |p|, true) == Some(Expansion([[120]], 13))
  {
    assert p[6..7] == [120];
    assert Expand(p, 7, |p|, true, 1) == Some(Expansion([], 8));
    ExpandByMove(p, 5, |p|, true, 1);
    assert [[120]] + [] == [p[6..7]];
    assert Expand(p, 5, |p|, true, 1) == Some(Expansion([[120]], 8));
  }

  lemma RootBehindPointer(q: seq<byte>)
    requires |q| == 23 && q[5] == 0 && q[11] == 0xc0 && q[12] == 5
    ensures NameAt(q, 11, |q|, true) == Some(Expansion([], 13))
  {
    assert Expand(q, 5, |q|, true, 1) == Some(Expansion([], 6));
  }

  /* ----- in place ----- */

  method PutTtl(packet: array<byte>, at: nat, w: seq<byte>)
    requires at + 4 <= packet.Length && |w| == 4
    modifies packet
    ensures packet[..] == Write4(old(packet[..]), at, w)
  {
    packet[at], packet[at + 1], packet[at + 2], packet[at + 3] := w[0], w[1], w[2], w[3];
  }

  /** One turn of `zero_answer_ttls`; the length check on the data comes after the write. */
  method ZeroRecord(packet: array<byte>, offset: nat) returns (ok: bool, next: nat)
    modifies packet
    ensures ok <==> Scanned(old(packet[..]), offset).Some? && RecordFits(old(packet[..]), Scanned(old(packet[..]), offset).value)
    ensures ok ==> var e := Scanned(old(packet[..]), offset).value;
              packet[..] == EditRecord(old(packet[..]), e, Zero) && next == RecordEnd(old(packet[..]), e)
  {
    next := offset;
    var end := ScanDnsName(packet[..], offset, packet.Length, true);
    if end.None? { return false, next; }
    var nameEnd := end.value;
    if nameEnd + 8 + 2 > packet.Length || nameEnd + 4 + 4 > packet.Length { return false, next; }
    ghost var before := packet[..];
    PutTtl(packet, nameEnd + 4, [0, 0, 0, 0]);
    assert packet[..][nameEnd + 8] == before[nameEnd + 8] && packet[..][nameEnd + 9] == before[nameEnd + 9];
    next := nameEnd + 10 + U16(packet[nameEnd + 8], packet[nameEnd + 9]);
    ok := next <= packet.Length;
  }

  /** `zero_answer_ttls`. */
  method ZeroAnswerTtls(packet: array<byte>, start: nat, count: nat) returns (ok: bool)
    modifies packet
    ensures ok <==> EditRecords(Scanned, Editor(Zero), old(packet[..]), start, count).Some?
    ensures ok ==> packet[..] == EditRecords(Scanned, Editor(Zero), old(packet[..]), start, count).value
  {
    ghost var outcome := EditRecords(Scanned, Editor(Zero), packet[..], start, count);
    var offset: nat := start;
    for i := 0 to count
      invariant EditRecords(Scanned, Editor(Zero), packet[..], offset, count - i) == outcome
    {
      ok, offset := ZeroRecord(packet, offset);
      if !ok { return false; }
    }
    ok := true;
  }

  function WithoutId(p: seq<byte>): seq<byte>
    requires |p| >= 2
  {
    p[0 := 0][1 := 0]
  }

  /** `normalized_packed_response`: the identifier goes first, then, if asked, the answers' TTLs. */
  method NormalizedPackedResponse(packet: seq<byte>, answers: nat, count: nat, zeroTtl: bool) returns (r: Option<seq<byte>>)
    ensures r.Some? <==> |packet| >= 2 && (zeroTtl ==> EditRecords(Scanned, Editor(Zero), WithoutId(packet), answers, count).Some?)
    ensures r.Some? && !zeroTtl ==> r.value == WithoutId(packet)
    ensures r.Some? && zeroTtl ==>
      && EditOk(Zero) && OwnerEnds(Skipped, WithoutId(packet), answers, count).Some?
      && var ends := OwnerEnds(Skipped, WithoutId(packet), answers, count).value;
      && |ends| == count && Spaced(ends, answers, |packet|) && TtlsRewritten(WithoutId(packet), r.value, ends, Zero)
    ensures |packet| >= 2 && answers >= 2 ==>
      OwnerEnds(Skipped, WithoutId(packet), answers, count) == OwnerEnds(Skipped, packet, answers, count)
  {
    if |packet| < 2 { return None; }
    if answers >= 2 {
      SkippedIsLocal();
      OwnerEndsLocal(Skipped, WithoutId(packet), packet, answers, count);
    }
    var out := new byte[|packet|](i requires 0 <= i < |packet| => packet[i]);
    out[0], out[1] := 0, 0;
    assert out[..] == WithoutId(packet);
    if zeroTtl {
      var ok := ZeroAnswerTtls(out, answers, count);
      if !ok { return None; }
      SuccessRewritesTtls(WithoutId(packet), answers, count, Zero);
    }
    return Some(out[..]);
  }

  /** The checks `cap_dns_response_ttls` makes on one record before it writes. */
  method ReadRecord(packet: seq<byte>, offset: nat) returns (ok: bool, fixed: nat, next: nat)
    ensures ok <==> Scanned(packet, offset).Some? && RecordFits(packet, Scanned(packet, offset).value)
    ensures ok ==> Scanned(packet, offset) == Some(fixed) && next == RecordEnd(packet, fixed)
  {
    fixed, next := 0, 0;
    var scanned := ScanDnsName(packet, offset, |packet|, true);
    if scanned.None? { return false, fixed, next; }
    fixed := scanned.value;
    if fixed + 2 > |packet| || fixed + 8 + 2 > |packet| { return false, fixed, next; }
    next := fixed + 10 + U16At(packet, fixed + 8);
    ok := next <= |packet|;
  }

  /** One turn of `cap_dns_response_ttls`. */
  method CapRecord(packet: array<byte>, offset: nat, limit: seq<byte>) returns (ok: bool, next: nat)
    requires |limit| == 4
    modifies packet
    ensures ok <==> Scanned(old(packet[..]), offset).Some? && RecordFits(old(packet[..]), Scanned(old(packet[..]), offset).value)
    ensures ok ==> var e := Scanned(old(packet[..]), offset).value;
              packet[..] == EditRecord(old(packet[..]), e, Cap(limit)) && next == RecordEnd(old(packet[..]), e)
  {
    var fixed;
    ok, fixed, next := ReadRecord(packet[..], offset);
    if !ok { return; }
    var kind := U16(packet[fixed], packet[fixed + 1]);
    var ttl := packet[fixed + 4..fixed + 8];
    if kind != OPT {
      PutTtl(packet, fixed + 4, if U32(ttl) <= U32(limit) then ttl else limit);
    } else {
      WriteSame(packet[..], fixed + 4);
    }
  }

  lemma WriteSame(p: seq<byte>, i: nat)
    requires i + 4 <= |p|
    ensures Write4(p, i, p[i..i + 4]) == p
  {
  }

  /** The loop of `cap_dns_response_ttls`, over all records after the questions. */
  method CapResponseTtls(packet: array<byte>, start: nat, count: nat, limit: seq<byte>) returns (ok: bool)
    requires |limit| == 4
    modifies packet
    ensures ok <==> EditRecords(Scanned, Editor(Cap(limit)), old(packet[..]), start, count).Some?
    ensures ok ==> packet[..] == EditRecords(Scanned, Editor(Cap(limit)), old(packet[..]), start, count).value
  {
    ghost var outcome := EditRecords(Scanned, Editor(Cap(limit)), packet[..], start, count);
    var offset: nat := start;
    for i := 0 to count
      invariant EditRecords(Scanned, Editor(Cap(limit)), packet[..], offset, count - i) == outcome
    {
      ok, offset := CapRecord(packet, offset, limit);
      if !ok { return false; }
    }
    ok := true;
  }

  /** Answer, authority and additional records of a packet. */
  function RecordCount(p: seq<byte>): nat
    requires |p| >= 12
  {
    U16At(p, 6) + U16At(p, 8) + U16At(p, 10)
  }

  /** `cap_dns_response_ttls`: every record of all three sections, from the answer offset on. */
  method CapDnsResponseTtls(packet: array<byte>, limit: seq<byte>) returns (ok: bool)
    requires |limit| == 4
    modifies packet
    ensures ok <==>
      && DnsReuse.Parse(old(packet[..])).Some?
      && EditRecords(Scanned, Editor(Cap(limit)), old(packet[..]), DnsReuse.Parse(old(packet[..])).value.AnswerOffset(),
                     RecordCount(old(packet[..]))).Some?
    ensures ok ==>
      var p, answers := old(packet[..]), DnsReuse.Parse(old(packet[..])).value.AnswerOffset();
      && OwnerEnds(Skipped, p, answers, RecordCount(p)).Some?
      && var ends := OwnerEnds(Skipped, p, answers, RecordCount(p)).value;
      && InBounds(ends, |p|) && TtlsRewritten(p, packet[..], ends, Cap(limit))
  {
    var view := DnsReuse.Parse(packet[..]);
    if view.None? { return false; }
    ghost var p := packet[..];
    var answers, count := view.value.AnswerOffset(), RecordCount(packet[..]);
    ok := CapResponseTtls(packet, answers, count, limit);
    if ok { SuccessRewritesTtls(p, answers, count, Cap(limit)); }
  }
}
