/**
  The UDP payload pool (crates/dae-datapath/src/udp_io.rs): receive buffers are
  kept in shards with a buffer budget and a byte budget each, handed out by `take`
  and given back by `recycle`; `trim_idle` releases idle buffers.

  A buffer is its capacity and its length; contents do not matter here.
*/
module PayloadPool {
  import opened Bytes

  const USIZE_MAX := 0xFFFF_FFFF_FFFF_FFFF
  const DEFAULT_CAPACITY := 2048
  const MAX_RETAINED_CAPACITY := 64 * 1024

  datatype Buffer = Buffer(capacity: nat, length: nat)

  datatype Shard = Shard(buffers: seq<Buffer>, retained: nat, lastUsed: Option<int>, maxIdle: nat, maxIdleBytes: nat)

  function SaturatingSub(a: nat, b: nat): nat { if a >= b then a - b else 0 }

  function SaturatingAdd(a: nat, b: nat): nat { if a + b <= USIZE_MAX then a + b else USIZE_MAX }

  function TotalCapacity(bs: seq<Buffer>): nat {
    if bs == [] then 0 else TotalCapacity(bs[..|bs| - 1]) + bs[|bs| - 1].capacity
  }

  /** The byte budget did not hit the end of the address space when it was computed. */
  predicate BudgetFits(s: Shard) {
    s.maxIdleBytes == s.maxIdle * DEFAULT_CAPACITY <= USIZE_MAX
  }

  /**
    Budgets are respected, retained buffers are empty and of retainable size, and
    the byte count is exact unless the configured byte budget itself overflowed.
  */
  ghost predicate ShardOk(s: Shard) {
    && |s.buffers| <= s.maxIdle
    && s.retained <= s.maxIdleBytes <= USIZE_MAX
    && (forall i :: 0 <= i < |s.buffers| ==> s.buffers[i].length == 0 && 0 < s.buffers[i].capacity <= MAX_RETAINED_CAPACITY)
    && (BudgetFits(s) ==> s.retained == TotalCapacity(s.buffers))
  }

  /* ----- one shard ----- */

  /** `buffers.pop().unwrap_or_else(..)` and the accounting beside it, `spare` being the freshly allocated buffer. */
  function PopOr(s: Shard, spare: Buffer, now: int): (Shard, Buffer) {
    var b := if s.buffers == [] then spare else s.buffers[|s.buffers| - 1];
    (s.(buffers := if s.buffers == [] then [] else s.buffers[..|s.buffers| - 1],
        retained := SaturatingSub(s.retained, b.capacity),
        lastUsed := Some(now)), b)
  }

  /** Even when the buffer is fresh and the shard is empty, the subtraction leaves the count exact. */
  lemma PopKeepsShard(s: Shard, spare: Buffer, now: int)
    requires ShardOk(s)
    ensures ShardOk(PopOr(s, spare, now).0)
    ensures BudgetFits(s) && s.buffers == [] ==> PopOr(s, spare, now).0.retained == s.retained == 0
    ensures BudgetFits(s) && s.buffers != [] ==>
              PopOr(s, spare, now).0.retained + PopOr(s, spare, now).1.capacity == s.retained
  {
  }

  /** The part of `recycle` under the shard lock, once the pressure flag was seen clear. */
  function PushIfRoom(s: Shard, capacity: nat, now: int): Shard {
    var retained := SaturatingAdd(s.retained, capacity);
    if |s.buffers| < s.maxIdle && retained <= s.maxIdleBytes
    then s.(buffers := s.buffers + [Buffer(capacity, 0)], retained := retained, lastUsed := Some(now))
    else s
  }

  lemma TotalCapacitySnoc(bs: seq<Buffer>, b: Buffer)
    ensures TotalCapacity(bs + [b]) == TotalCapacity(bs) + b.capacity
  {
    assert (bs + [b])[..|bs|] == bs;
  }

  lemma PushKeepsShard(s: Shard, capacity: nat, now: int)
    requires ShardOk(s) && 0 < capacity <= MAX_RETAINED_CAPACITY
    ensures ShardOk(PushIfRoom(s, capacity, now))
  {
    TotalCapacitySnoc(s.buffers, Buffer(capacity, 0));
  }

  /** One accepted recycle keeps an exact count exact, if and only if the true total stays addressable. */
  lemma PushExactly(s: Shard, capacity: nat, now: int)
    requires s.retained == TotalCapacity(s.buffers)
    requires PushIfRoom(s, capacity, now).buffers != s.buffers
    ensures PushIfRoom(s, capacity, now).retained == TotalCapacity(PushIfRoom(s, capacity, now).buffers)
            <==> TotalCapacity(s.buffers) + capacity <= USIZE_MAX
  {
    TotalCapacitySnoc(s.buffers, Buffer(capacity, 0));
  }

  function Full(n: nat): (r: seq<Buffer>)
    ensures |r| == n && forall i :: 0 <= i < n ==> r[i] == Buffer(65536, 0)
  {
    if n == 0 then [] else Full(n - 1) + [Buffer(65536, 0)]
  }

  lemma {:induction false} FullCapacity(n: nat)
    ensures TotalCapacity(Full(n)) == n * 65536
    decreases n
  {
    if n > 0 {
      FullCapacity(n - 1);
      TotalCapacitySnoc(Full(n - 1), Buffer(65536, 0));
    }
  }

  /**
    The condition can fail within the budgets only if their byte limit has itself
    saturated and the buffers fill the address space: here 2^48 buffers of 64 KiB.
  */
  lemma CountSaturates(n: nat, now: int)
    requires n == 0xFFFF_FFFF_FFFF
    ensures var s := Shard(Full(n), n * 65536, Some(now), 0x20_0000_0000_0000, USIZE_MAX);
            && ShardOk(s) && s.retained == TotalCapacity(s.buffers)
            && var after := PushIfRoom(s, 65536, now);
            |after.buffers| == |s.buffers| + 1 && ShardOk(after) && after.retained < TotalCapacity(after.buffers)
  {
    var s := Shard(Full(n), n * 65536, Some(now), 0x20_0000_0000_0000, USIZE_MAX);
    FullCapacity(n);
    TotalCapacitySnoc(s.buffers, Buffer(65536, 0));
  }

  lemma {:induction false} TotalCapacityConcat(a: seq<Buffer>, b: seq<Buffer>)
    ensures TotalCapacity(a + b) == TotalCapacity(a) + TotalCapacity(b)
    decreases |b|
  {
    if b == [] {
      assert a + b == a;
    } else {
      var l := |b| - 1;
      assert (a + b)[..|a + b| - 1] == a + b[..l];
      TotalCapacityConcat(a, b[..l]);
    }
  }

  function Elapsed(now: int, used: int): nat { if now >= used then now - used else 0 }

  /** Buffers `trim_idle` leaves in a shard: all, one if it was idle, none under pressure. */
  function Kept(s: Shard, now: int, idleTimeout: nat, pressure: bool): (n: nat)
    ensures n <= |s.buffers|
  {
    if pressure then 0
    else if s.lastUsed.Some? && Elapsed(now, s.lastUsed.value) >= idleTimeout && |s.buffers| > 1 then 1
    else |s.buffers|
  }

  function Released(s: Shard, now: int, idleTimeout: nat, pressure: bool): nat {
    TotalCapacity(s.buffers[Kept(s, now, idleTimeout, pressure)..])
  }

  /** What `trim_idle` does to one shard. */
  function Trimmed(s: Shard, now: int, idleTimeout: nat, pressure: bool): Shard {
    s.(buffers := s.buffers[..Kept(s, now, idleTimeout, pressure)],
       retained := SaturatingSub(s.retained, Released(s, now, idleTimeout, pressure)))
  }

  lemma TrimKeepsShard(s: Shard, now: int, idleTimeout: nat, pressure: bool)
    requires ShardOk(s)
    ensures ShardOk(Trimmed(s, now, idleTimeout, pressure))
  {
    var n := Kept(s, now, idleTimeout, pressure);
    TotalCapacityConcat(s.buffers[..n], s.buffers[n..]);
    assert s.buffers[..n] + s.buffers[n..] == s.buffers;
  }

  /** The buffers of `s` from `n` on have been popped, and their capacities counted. */
  ghost predicate PoppedTo(s: Shard, n: nat, released: nat, r: Shard, total: nat) {
    && n <= |s.buffers|
    && r == s.(buffers := s.buffers[..n], retained := SaturatingSub(s.retained, TotalCapacity(s.buffers[n..])))
    && total == SaturatingAdd(released, TotalCapacity(s.buffers[n..]))
  }

  lemma NonePopped(s: Shard, released: nat)
    requires released <= USIZE_MAX
    ensures PoppedTo(s, |s.buffers|, released, s, released)
  {
    assert s.buffers[..|s.buffers|] == s.buffers && s.buffers[|s.buffers|..] == [];
  }

  lemma CapacityFrom(bs: seq<Buffer>, n: nat)
    requires n < |bs|
    ensures TotalCapacity(bs[n..]) == bs[n].capacity + TotalCapacity(bs[n + 1..])
  {
    TotalCapacityConcat([bs[n]], bs[n + 1..]);
    assert [bs[n]] + bs[n + 1..] == bs[n..];
    assert TotalCapacity([bs[n]]) == bs[n].capacity by { assert [bs[n]][..0] == []; }
  }

  lemma PopOneMore(s: Shard, n: nat, released: nat, r: Shard, total: nat)
    requires PoppedTo(s, n + 1, released, r, total)
    ensures var b := r.buffers[n];
            PoppedTo(s, n, released, r.(buffers := r.buffers[..n], retained := SaturatingSub(r.retained, b.capacity)),
                     SaturatingAdd(total, b.capacity))
  {
    CapacityFrom(s.buffers, n);
    assert s.buffers[..n + 1][..n] == s.buffers[..n];
  }

  /** The inner loop of `trim_idle`: pop until the kept buffers remain, one subtraction per buffer. */
  method TrimShard(s: Shard, now: int, idleTimeout: nat, pressure: bool, released: nat) returns (r: Shard, total: nat)
    requires released <= USIZE_MAX
    ensures r == Trimmed(s, now, idleTimeout, pressure)
    ensures total == SaturatingAdd(released, Released(s, now, idleTimeout, pressure))
  {
    r, total := s, released;
    NonePopped(s, released);
    if pressure || (s.lastUsed.Some? && Elapsed(now, s.lastUsed.value) >= idleTimeout) {
      var keep := if pressure then 0 else 1;
      while |r.buffers| > keep
        invariant PoppedTo(s, |r.buffers|, released, r, total) && (|r.buffers| >= keep || r.buffers == s.buffers)
        decreases |r.buffers|
      {
        var n := |r.buffers| - 1;
        var b := r.buffers[n];
        PopOneMore(s, n, released, r, total);
        total := SaturatingAdd(total, b.capacity);
        r := r.(buffers := r.buffers[..n], retained := SaturatingSub(r.retained, b.capacity));
      }
    }
  }


  /* ----- the pool ----- */

  function NextPowerOfTwo(n: nat): (r: nat)
    ensures r >= n
  {
    PowerAtLeast(n, 1)
  }

  function PowerAtLeast(n: nat, p: nat): (r: nat)
    requires p > 0
    ensures r >= n && r >= p
    decreases if p >= n then 0 else n - p
  {
    if p >= n then p else PowerAtLeast(n, 2 * p)
  }

  function Max(a: nat, b: nat): nat { if a >= b then a else b }

  function Min(a: nat, b: nat): nat { if a <= b then a else b }

  function ShardCount(maxIdle: nat, requested: nat): (n: nat)
    ensures n >= 1
  {
    Min(Max(requested, 1), Max(maxIdle, 1))
  }

  /** Shard `i`'s share of the idle budget: an even split, the remainder on the first shards. */
  function Share(maxIdle: nat, count: nat, i: nat): nat
    requires count >= 1
  {
    maxIdle / count + if i < maxIdle % count then 1 else 0
  }

  function NewShard(share: nat): Shard {
    Shard([], 0, None, share, Min(share * DEFAULT_CAPACITY, USIZE_MAX))
  }

  function NewShards(maxIdle: nat, requested: nat): (r: seq<Shard>)
    ensures |r| == ShardCount(maxIdle, requested)
  {
    var n := ShardCount(maxIdle, requested);
    seq(n, i requires 0 <= i < n => NewShard(Share(maxIdle, n, i)))
  }

  function TotalIdle(ss: seq<Shard>): nat {
    if ss == [] then 0 else TotalIdle(ss[..|ss| - 1]) + ss[|ss| - 1].maxIdle
  }

  /** How many buffers lie idle. */
  function IdleBuffers(ss: seq<Shard>): nat {
    if ss == [] then 0 else IdleBuffers(ss[..|ss| - 1]) + |ss[|ss| - 1].buffers|
  }

  ghost predicate SameLimits(a: seq<Shard>, b: seq<Shard>) {
    && |a| == |b|
    && forall i :: 0 <= i < |a| ==> a[i].maxIdle == b[i].maxIdle && a[i].maxIdleBytes == b[i].maxIdleBytes
  }

  lemma {:induction false} SameTotalIdle(a: seq<Shard>, b: seq<Shard>)
    requires SameLimits(a, b)
    ensures TotalIdle(a) == TotalIdle(b)
    decreases |a|
  {
    if a != [] { SameTotalIdle(a[..|a| - 1], b[..|b| - 1]); }
  }

  lemma {:induction false} IdleWithinLimits(ss: seq<Shard>)
    requires forall i :: 0 <= i < |ss| ==> |ss[i].buffers| <= ss[i].maxIdle
    ensures IdleBuffers(ss) <= TotalIdle(ss)
    decreases |ss|
  {
    if ss != [] { IdleWithinLimits(ss[..|ss| - 1]); }
  }

  lemma {:induction false} EvenSplit(ss: seq<Shard>, each: nat, extra: nat, k: nat)
    requires k <= |ss| && forall i :: 0 <= i < k ==> ss[i].maxIdle == each + if i < extra then 1 else 0
    ensures TotalIdle(ss[..k]) == each * k + Min(k, extra)
    decreases k
  {
    if k > 0 {
      EvenSplit(ss, each, extra, k - 1);
      assert ss[..k][..k - 1] == ss[..k - 1];
      OneMore(each, k - 1);
    }
  }

  lemma OneMore(each: nat, k: nat)
    ensures each * (k + 1) == each * k + each
  {
  }

  lemma Divided(m: nat, n: nat)
    requires n >= 1
    ensures m / n * n + m % n == m && m % n < n
  {
  }

  /** Shard budgets sum to the configured total. */
  lemma SharesAddUp(maxIdle: nat, requested: nat)
    ensures TotalIdle(NewShards(maxIdle, requested)) == maxIdle
  {
    var n, ss := ShardCount(maxIdle, requested), NewShards(maxIdle, requested);
    var each, extra := maxIdle / n, maxIdle % n;
    Divided(maxIdle, n);
    assert forall i :: 0 <= i < n ==> ss[i].maxIdle == each + if i < extra then 1 else 0;
    EvenSplit(ss, each, extra, n);
    assert ss[..n] == ss;
  }

  class UdpPayloadPool {
    var shards: seq<Shard>
    var nextTake: nat
    var pressure: bool

    ghost predicate Valid()
      reads this
    {
      |shards| >= 1 && forall i :: 0 <= i < |shards| ==> ShardOk(shards[i])
    }

    constructor (maxIdle: nat, requested: nat)
      ensures Valid() && !pressure && shards == NewShards(maxIdle, requested)
      ensures TotalIdle(shards) == maxIdle
    {
      shards := NewShards(maxIdle, requested);
      nextTake, pressure := 0, false;
      SharesAddUp(maxIdle, requested);
    }

    /** `take`: an empty buffer of at least the requested capacity; only one shard changes. */
    method Take(minCapacity: nat, now: int) returns (b: Buffer, shardIndex: nat)
      requires Valid()
      modifies this`shards, this`nextTake
      ensures Valid() && |shards| == old(|shards|)
      ensures b.length == 0 && b.capacity >= minCapacity
      ensures shardIndex < |shards| && shardIndex == old(nextTake) % |shards|
      ensures exists spare: Buffer ::
        && spare.capacity >= minCapacity
        && shards == old(shards)[shardIndex := PopOr(old(shards)[shardIndex], spare, now).0]
        && var popped := PopOr(old(shards)[shardIndex], spare, now).1;
           minCapacity <= popped.capacity <= NextPowerOfTwo(Max(minCapacity, DEFAULT_CAPACITY)) ==>
             b.capacity == popped.capacity
      ensures forall i :: 0 <= i < |shards| ==> shards[i].maxIdle == old(shards)[i].maxIdle
    {
      if |shards| == 1 {
        shardIndex := 0;
      } else {
        shardIndex := nextTake % |shards|;
        nextTake := (nextTake + 1) % (USIZE_MAX + 1);
      }
      var capacity: nat :| capacity >= minCapacity;
      var spare := Buffer(capacity, 0);
      PopKeepsShard(shards[shardIndex], spare, now);
      var (s, popped) := PopOr(shards[shardIndex], spare, now);
      shards := shards[shardIndex := s];
      b := popped.(length := 0);
      if b.capacity > NextPowerOfTwo(Max(minCapacity, DEFAULT_CAPACITY)) {
        var exact: nat :| exact >= minCapacity;
        b := Buffer(exact, 0);
      } else if b.capacity < minCapacity {
        var grown: nat :| grown >= minCapacity;
        b := b.(capacity := grown);
      }
    }

    /** `recycle`, run without interference. */
    method Recycle(shardIndex: nat, b: Buffer, now: int)
      requires Valid() && shardIndex < |shards|
      modifies this`shards
      ensures Valid()
      ensures shards == if pressure || b.capacity == 0 || b.capacity > MAX_RETAINED_CAPACITY then old(shards)
                        else old(shards)[shardIndex := PushIfRoom(old(shards)[shardIndex], b.capacity, now)]
    {
      if pressure || b.capacity == 0 || b.capacity > MAX_RETAINED_CAPACITY { return; }
      PushKeepsShard(shards[shardIndex], b.capacity, now);
      var s := shards[shardIndex];
      var retained := SaturatingAdd(s.retained, b.capacity);
      if |s.buffers| < s.maxIdle && retained <= s.maxIdleBytes {
        s := s.(lastUsed := Some(now), retained := retained, buffers := s.buffers + [Buffer(b.capacity, 0)]);
      }
      shards := shards[shardIndex := s];
    }

    /** `trim_idle`, run without interference: every shard is trimmed and the released bytes are summed. */
    method TrimIdle(now: int, idleTimeout: nat, underPressure: bool) returns (released: nat)
      requires Valid()
      modifies this`shards, this`pressure
      ensures Valid() && pressure == underPressure && |shards| == old(|shards|)
      ensures forall i :: 0 <= i < |shards| ==> shards[i] == Trimmed(old(shards)[i], now, idleTimeout, underPressure)
      ensures released == Min(TotalReleased(old(shards), now, idleTimeout, underPressure), USIZE_MAX)
    {
      pressure := underPressure;
      released := 0;
      for i := 0 to |shards|
        invariant |shards| == old(|shards|) && pressure == underPressure && Valid()
        invariant forall j :: i <= j < |shards| ==> shards[j] == old(shards)[j]
        invariant forall j :: 0 <= j < i ==> shards[j] == Trimmed(old(shards)[j], now, idleTimeout, underPressure)
        invariant released == Min(TotalReleased(old(shards)[..i], now, idleTimeout, underPressure), USIZE_MAX)
      {
        TrimKeepsShard(shards[i], now, idleTimeout, underPressure);
        var s, total := TrimShard(shards[i], now, idleTimeout, underPressure, released);
        assert old(shards)[..i + 1][..i] == old(shards)[..i];
        shards := shards[i := s];
        released := total;
      }
      assert old(shards)[..|shards|] == old(shards);
    }
  }

  function TotalReleased(ss: seq<Shard>, now: int, idleTimeout: nat, pressure: bool): nat {
    if ss == [] then 0
    else TotalReleased(ss[..|ss| - 1], now, idleTimeout, pressure) + Released(ss[|ss| - 1], now, idleTimeout, pressure)
  }
}
