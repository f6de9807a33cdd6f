/**
  The race between `recycle` and a pressure trim (crates/dae-datapath/src/udp_io.rs).

  Every load, store, lock, unlock and critical-section body is its own step, so a
  recycler may see the flag clear, lose the processor, and resume after the flag
  was set.  The second flag check, made under the shard lock, is what keeps a shard
  that the trim has passed empty.
*/
module PoolPressure {
  import opened Bytes
  import opened PayloadPool

  /** What a thread does next. */
  datatype Pc =
    | RecycleStart(shard: nat, capacity: nat)
    | RecycleLock(shard: nat, capacity: nat)  // passed the first flag check
    | RecycleCheck(shard: nat, capacity: nat) // holds the lock
    | RecyclePush(shard: nat, capacity: nat)  // holds the lock and saw the flag clear
    | TakeLock(shard: nat)
    | TakePop(shard: nat)                     // holds the lock
    | TrimStart(idleTimeout: nat, pressure: bool)
    | TrimLock(shard: nat, idleTimeout: nat, pressure: bool)
    | TrimBody(shard: nat, idleTimeout: nat, pressure: bool) // holds the lock
    | TrimUnlock(shard: nat, idleTimeout: nat, pressure: bool)
    | Unlock(shard: nat)
    | Finished

  /** The shard whose lock a thread holds at this point, if any. */
  function Holds(pc: Pc): Option<nat> {
    match pc
    case RecycleCheck(s, _) => Some(s)
    case RecyclePush(s, _) => Some(s)
    case TakePop(s) => Some(s)
    case TrimBody(s, _, _) => Some(s)
    case TrimUnlock(s, _, _) => Some(s)
    case Unlock(s) => Some(s)
    case _ => None
  }

  datatype World = World(flag: bool, shards: seq<Shard>, threads: map<nat, Pc>)

  /** No thread holds the lock of shard `s`. */
  ghost predicate Free(w: World, s: nat) {
    forall t :: t in w.threads ==> Holds(w.threads[t]) != Some(s)
  }

  predicate Entry(w: World, pc: Pc) {
    match pc
    case RecycleStart(s, _) => s < |w.shards|
    case TakeLock(s) => s < |w.shards|
    case TrimStart(_, _) => true
    case _ => false
  }

  function Go(w: World, t: nat, pc: Pc): World { w.(threads := w.threads[t := pc]) }

  function GoShard(w: World, t: nat, pc: Pc, i: nat, s: Shard): World
    requires i < |w.shards|
  {
    w.(threads := w.threads[t := pc], shards := w.shards[i := s])
  }

  /** Thread `t` takes one atomic step at time `now`; `spare` is what the allocator would hand a taker. */
  ghost predicate Step(w: World, t: nat, now: int, spare: Buffer, w': World) {
    if t !in w.threads then exists pc :: Entry(w, pc) && w' == Go(w, t, pc)
    else
      match w.threads[t]
      case RecycleStart(s, c) =>
        w' == Go(w, t, if w.flag || c == 0 || c > MAX_RETAINED_CAPACITY then Finished else RecycleLock(s, c))
      case RecycleLock(s, c) => Free(w, s) && w' == Go(w, t, RecycleCheck(s, c))
      case RecycleCheck(s, c) => w' == Go(w, t, if w.flag then Unlock(s) else RecyclePush(s, c))
      case RecyclePush(s, c) => s < |w.shards| && w' == GoShard(w, t, Unlock(s), s, PushIfRoom(w.shards[s], c, now))
      case TakeLock(s) => Free(w, s) && w' == Go(w, t, TakePop(s))
      case TakePop(s) => s < |w.shards| && w' == GoShard(w, t, Unlock(s), s, PopOr(w.shards[s], spare, now).0)
      case TrimStart(d, p) => w' == Go(w, t, TrimLock(0, d, p)).(flag := p)
      case TrimLock(s, d, p) =>
        if s >= |w.shards| then w' == Go(w, t, Finished)
        else Free(w, s) && w' == Go(w, t, TrimBody(s, d, p))
      case TrimBody(s, d, p) => s < |w.shards| && w' == GoShard(w, t, TrimUnlock(s, d, p), s, Trimmed(w.shards[s], now, d, p))
      case TrimUnlock(s, d, p) => w' == Go(w, t, TrimLock(s + 1, d, p))
      case Unlock(s) => w' == Go(w, t, Finished)
      case Finished => w' == w.(threads := w.threads - {t})
  }

  ghost predicate Next(w: World, w': World) {
    exists t, now, spare :: Step(w, t, now, spare, w')
  }

  ghost predicate IsRun(run: seq<World>) {
    && run != [] && run[0].threads == map[] && ShardsOk(run[0].shards)
    && forall i :: Linked(run, i)
  }

  ghost predicate Linked(run: seq<World>, i: int) {
    0 <= i < |run| - 1 ==> Next(run[i], run[i + 1])
  }

  /** Locks are exclusive. */
  ghost predicate LocksOk(threads: map<nat, Pc>) {
    forall a, b :: a in threads && b in threads && a != b && Holds(threads[a]).Some? ==>
      Holds(threads[a]) != Holds(threads[b])
  }

  ghost predicate ThreadsOk(w: World) {
    forall t :: t in w.threads ==> PcOk(w, w.threads[t])
  }

  ghost predicate ShardsOk(shards: seq<Shard>) {
    forall i :: 0 <= i < |shards| ==> ShardOk(shards[i])
  }

  /** Locks are exclusive, threads name real shards, and every shard's accounting is intact. */
  ghost predicate Inv(w: World) {
    LocksOk(w.threads) && ThreadsOk(w) && ShardsOk(w.shards)
  }

  predicate PcOk(w: World, pc: Pc) {
    match pc
    case RecycleStart(s, _) => s < |w.shards|
    case RecycleLock(s, c) => s < |w.shards| && 0 < c <= MAX_RETAINED_CAPACITY
    case RecycleCheck(s, c) => s < |w.shards| && 0 < c <= MAX_RETAINED_CAPACITY
    case RecyclePush(s, c) => s < |w.shards| && 0 < c <= MAX_RETAINED_CAPACITY
    case TakeLock(s) => s < |w.shards|
    case TakePop(s) => s < |w.shards|
    case TrimBody(s, _, _) => s < |w.shards|
    case _ => true
  }

  lemma MoveKeepsLocks(threads: map<nat, Pc>, t: nat, pc: Pc)
    requires LocksOk(threads)
    requires Holds(pc).None? || (t in threads && Holds(pc) == Holds(threads[t]))
             || forall u :: u in threads ==> Holds(threads[u]) != Holds(pc)
    ensures LocksOk(threads[t := pc])
  {
  }

  lemma StepKeepsLocks(w: World, t: nat, now: int, spare: Buffer, w': World)
    requires Inv(w) && Step(w, t, now, spare, w')
    ensures LocksOk(w'.threads)
  {
    if t !in w.threads {
      var pc :| Entry(w, pc) && w' == Go(w, t, pc);
      MoveKeepsLocks(w.threads, t, pc);
    } else if t in w'.threads {
      assert w'.threads == w.threads[t := w'.threads[t]];
      MoveKeepsLocks(w.threads, t, w'.threads[t]);
    }
  }

  /** A step only moves thread `t`, to a point that names a real shard, or lets it go. */
  lemma StepMoves(w: World, t: nat, now: int, spare: Buffer, w': World)
    requires Inv(w) && Step(w, t, now, spare, w')
    ensures |w'.shards| == |w.shards|
    ensures if t in w'.threads then w'.threads == w.threads[t := w'.threads[t]] && PcOk(w, w'.threads[t])
            else w'.threads == w.threads - {t}
  {
    if t !in w.threads {
      var pc :| Entry(w, pc) && w' == Go(w, t, pc);
    } else {
      assert PcOk(w, w.threads[t]);
    }
  }

  lemma StepKeepsThreads(w: World, t: nat, now: int, spare: Buffer, w': World)
    requires Inv(w) && Step(w, t, now, spare, w')
    ensures |w'.shards| == |w.shards| && ThreadsOk(w')
    ensures forall u :: u != t ==> (u in w'.threads <==> u in w.threads) && (u in w.threads ==> w'.threads[u] == w.threads[u])
  {
    StepMoves(w, t, now, spare, w');
    forall u | u in w'.threads ensures PcOk(w', w'.threads[u]) {
      if u != t { assert PcOk(w, w.threads[u]); }
    }
  }


  lemma StepKeepsShards(w: World, t: nat, now: int, spare: Buffer, w': World)
    requires Inv(w) && Step(w, t, now, spare, w')
    ensures ShardsOk(w'.shards)
  {
    if t in w.threads {
      match w.threads[t] {
        case RecyclePush(s, c) => PushKeepsShard(w.shards[s], c, now);
        case TakePop(s) => PopKeepsShard(w.shards[s], spare, now);
        case TrimBody(s, d, p) => TrimKeepsShard(w.shards[s], now, d, p);
        case _ =>
      }
    }
  }

  lemma StepKeepsLimits(w: World, t: nat, now: int, spare: Buffer, w': World)
    requires Inv(w) && Step(w, t, now, spare, w')
    ensures SameLimits(w'.shards, w.shards)
  {
    if t !in w.threads {
      var pc :| Entry(w, pc) && w' == Go(w, t, pc);
    }
  }

  lemma StepKeepsInv(w: World, t: nat, now: int, spare: Buffer, w': World)
    requires Inv(w) && Step(w, t, now, spare, w')
    ensures Inv(w') && SameLimits(w'.shards, w.shards)
  {
    StepKeepsLocks(w, t, now, spare, w');
    StepKeepsThreads(w, t, now, spare, w');
    StepKeepsShards(w, t, now, spare, w');
    StepKeepsLimits(w, t, now, spare, w');
  }

  /** Under every interleaving, locks exclude each other and every shard keeps its budgets and its byte count. */
  lemma {:induction false} RunKeepsInv(run: seq<World>, i: nat)
    requires IsRun(run) && i < |run|
    ensures Inv(run[i]) && SameLimits(run[i].shards, run[0].shards)
    decreases i
  {
    if i > 0 {
      RunKeepsInv(run, i - 1);
      assert Linked(run, i - 1);
      var t, now, spare :| Step(run[i - 1], t, now, spare, run[i]);
      StepKeepsInv(run[i - 1], t, now, spare, run[i]);
    }
  }

  /** So the pool as a whole never keeps more buffers than it was built for. */
  lemma RunKeepsTotal(run: seq<World>, i: nat)
    requires IsRun(run) && i < |run|
    ensures IdleBuffers(run[i].shards) <= TotalIdle(run[i].shards) == TotalIdle(run[0].shards)
  {
    RunKeepsInv(run, i);
    SameTotalIdle(run[i].shards, run[0].shards);
    IdleWithinLimits(run[i].shards);
  }

  /** Shard `s` is empty and nobody is about to push into it. */
  ghost predicate Quiet(w: World, s: nat) {
    && s < |w.shards| && w.shards[s].buffers == []
    && forall t :: t in w.threads ==> !(w.threads[t].RecyclePush? && w.threads[t].shard == s)
  }

  lemma StepKeepsQuiet(w: World, t: nat, now: int, spare: Buffer, w': World, s: nat)
    requires Inv(w) && Step(w, t, now, spare, w') && w.flag && Quiet(w, s)
    ensures Quiet(w', s)
  {
    if t !in w.threads {
      var pc :| Entry(w, pc) && w' == Go(w, t, pc);
    }
  }

  lemma NextKeepsQuiet(w: World, w': World, s: nat)
    requires Inv(w) && Next(w, w') && w.flag && Quiet(w, s)
    ensures Quiet(w', s)
  {
    var t, now, spare :| Step(w, t, now, spare, w');
    StepKeepsQuiet(w, t, now, spare, w', s);
  }

  /** Thread `t` runs the body of a pressure trim on shard `s` between the two worlds. */
  predicate Passes(w: World, w': World, t: nat, s: nat) {
    && t in w.threads && w.threads[t].TrimBody? && w.threads[t].pressure && w.threads[t].shard == s
    && t in w'.threads && w'.threads[t].TrimUnlock?
  }

  /** The trim body empties the shard; holding the lock, it also excludes any pending push. */
  lemma TrimMakesQuiet(w: World, w': World, t: nat, s: nat)
    requires Inv(w) && Next(w, w') && Passes(w, w', t, s)
    ensures Quiet(w', s)
  {
    var u, now, spare :| Step(w, u, now, spare, w');
    StepKeepsThreads(w, u, now, spare, w');
    assert u == t;
  }

  /**
    Once a pressure trim has passed a shard, the shard stays empty for as long as
    the flag stays set, whatever the other threads had already checked before.
  */
  lemma {:induction false} PassedShardStaysEmpty(run: seq<World>, i: nat, j: nat, t: nat, s: nat)
    requires IsRun(run) && i < j < |run| && Passes(run[i], run[i + 1], t, s)
    requires forall k :: i < k < j ==> run[k].flag
    ensures s < |run[j].shards| && run[j].shards[s].buffers == []
    ensures Quiet(run[j], s)
    decreases j
  {
    RunKeepsInv(run, j - 1);
    assert Linked(run, j - 1);
    if j == i + 1 {
      TrimMakesQuiet(run[i], run[j], t, s);
    } else {
      PassedShardStaysEmpty(run, i, j - 1, t, s);
      NextKeepsQuiet(run[j - 1], run[j], s);
    }
  }
}
