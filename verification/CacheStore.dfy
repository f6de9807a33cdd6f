/**
  The DNS cache store and its counters (`DnsCacheStore`, crates/dae-dns/src/cache.rs
  and crates/dae-dns/src/cache/transactions.rs).
*/
module CacheStore {
  import opened Bytes
  import opened CacheEntries

  /** What the store holds, its three counters, and how many new keys were ever inserted. */
  datatype State = State(contents: Contents, hits: nat, expired: nat, removals: nat, newKeys: nat)

  /** `saturating_sub`. */
  function Minus(a: nat, b: nat): nat {
    if a < b then 0 else a - b
  }

  /* ----- what each operation does ----- */

  /** Every entry of `m` that is not in `kept` expires no later than those that are. */
  ghost predicate OldestGone(m: Contents, kept: Contents) {
    && (forall k :: k in kept ==> Find(m, k) == Some(kept[k]))
    && (forall gone, k :: gone in m && gone !in kept && k in kept ==> m[gone].Expires() <= kept[k].Expires())
  }

  /** `m` brought below the capacity by dropping as few of the oldest entries as that takes. */
  ghost predicate Trimmed(m: Contents, kept: Contents, capacity: nat) {
    OldestGone(m, kept) && if |m| < capacity then kept == m else |kept| + 1 == capacity
  }

  /** `evict_entries`: expired entries go first, live ones only if that leaves the store full. */
  ghost predicate Evicted(m: Contents, kept: Contents, now: int, capacity: nat) {
    Trimmed(Live(m, now), kept, capacity)
  }

  ghost predicate InsertNew(capacity: nat, s: State, t: State, now: int, key: Key, entry: Entry, kept: Contents) {
    && Evicted(s.contents, kept, now, capacity)
    && t.contents == kept[key := entry] && t.hits == s.hits && t.newKeys == s.newKeys + 1
    && t.expired == s.expired + Minus(|s.contents|, |Live(s.contents, now)|)
    && t.removals == s.removals + Minus(|s.contents|, |kept|)
  }

  /** `insert_entry`. */
  ghost predicate Insert(capacity: nat, s: State, t: State, now: int, key: Key, entry: Entry) {
    if capacity == 0 then t == s
    else if key in s.contents then t == s.(contents := s.contents[key := entry])
    else exists kept :: InsertNew(capacity, s, t, now, key, entry, kept)
  }

  /** `lookup_ref`. */
  ghost predicate Lookup(s: State, t: State, now: int, key: Key, ignoreFixedTtl: bool, r: Option<Entry>) {
    match Find(s.contents, key)
    case None => t == s && r == None
    case Some(entry) =>
      if entry.LookupDeadline(ignoreFixedTtl) > now then t == s.(hits := s.hits + 1) && r == Some(entry)
      else if entry.Expires() > now then t == s && r == None
      else t == s.(contents := s.contents - {key}, expired := s.expired + 1, removals := s.removals + 1) && r == None
  }

  /** `sweep_entries_limited`. */
  ghost predicate Sweep(s: State, t: State, now: int, limit: nat, removed: seq<Pair>) {
    && Dropped(s.contents, t.contents, now, removed) && |removed| <= limit
    && (|removed| < limit ==> t.contents == Live(s.contents, now))
    && t == State(t.contents, s.hits, s.expired + |removed|, s.removals + |removed|, s.newKeys)
  }

  function PutAll(m: Contents, pairs: seq<Pair>): Contents
    decreases pairs
  {
    if pairs == [] then m else PutAll(m[pairs[0].key := pairs[0].entry], pairs[1..])
  }

  /** `restore_swept_entries`. */
  function Restore(s: State, pairs: seq<Pair>): State {
    State(PutAll(s.contents, pairs), s.hits, Minus(s.expired, |pairs|), Minus(s.removals, |pairs|), s.newKeys)
  }

  ghost predicate InsertedWithEviction(capacity: nat, s: State, t: State, key: Key, entry: Entry, kept: Contents) {
    && (if key in s.contents then kept == s.contents else Trimmed(s.contents, kept, capacity))
    && t == State(kept[key := entry], s.hits, s.expired, s.removals + Minus(|s.contents|, |kept|),
                  s.newKeys + if key in s.contents then 0 else 1)
  }

  /** `insert_with_eviction`; `applied` is the outcome of the owner's transaction. */
  ghost predicate Transact(capacity: nat, s: State, t: State, key: Key, entry: Entry, applied: bool) {
    if capacity == 0 || !applied then t == s
    else exists kept :: InsertedWithEviction(capacity, s, t, key, entry, kept)
  }

  /* ----- what every run keeps ----- */

  /** The books balance. */
  ghost predicate Balanced(capacity: nat, s: State) {
    && |s.contents| <= capacity
    && s.newKeys == |s.contents| + s.removals
    && s.expired <= s.removals
  }

  lemma {:induction false} SubmapSize(m: Contents, n: Contents)
    requires forall k :: k in n ==> k in m
    ensures |n| <= |m|
    decreases |n|
  {
    if n != map[] {
      var k :| k in n;
      RemoveSize(m, k);
      RemoveSize(n, k);
      SubmapSize(m - {k}, n - {k});
    }
  }

  lemma InsertBalanced(capacity: nat, s: State, t: State, now: int, key: Key, entry: Entry)
    requires Balanced(capacity, s) && Insert(capacity, s, t, now, key, entry)
    ensures Balanced(capacity, t)
  {
    if capacity > 0 && key !in s.contents {
      var kept :| InsertNew(capacity, s, t, now, key, entry, kept);
      SubmapSize(Live(s.contents, now), kept);
      SubmapSize(s.contents, Live(s.contents, now));
      assert key !in kept;
    } else if capacity > 0 {
      assert t.contents.Keys == s.contents.Keys;
      assert |t.contents| == |t.contents.Keys| == |s.contents.Keys|;
    }
  }

  lemma LookupBalanced(capacity: nat, s: State, t: State, now: int, key: Key, ignoreFixedTtl: bool, r: Option<Entry>)
    requires Balanced(capacity, s) && Lookup(s, t, now, key, ignoreFixedTtl, r)
    ensures Balanced(capacity, t)
  {
    if key in s.contents { RemoveSize(s.contents, key); }
  }

  lemma SweepBalanced(capacity: nat, s: State, t: State, now: int, limit: nat, removed: seq<Pair>)
    requires Balanced(capacity, s) && Sweep(s, t, now, limit, removed)
    ensures Balanced(capacity, t)
  {
  }

  lemma TransactBalanced(capacity: nat, s: State, t: State, key: Key, entry: Entry, applied: bool)
    requires Balanced(capacity, s) && Transact(capacity, s, t, key, entry, applied)
    ensures Balanced(capacity, t)
  {
    if capacity > 0 && applied {
      var kept :| InsertedWithEviction(capacity, s, t, key, entry, kept);
      if key in s.contents {
        assert t.contents.Keys == s.contents.Keys;
        assert |t.contents| == |t.contents.Keys| == |s.contents.Keys|;
      } else {
        SubmapSize(s.contents, kept);
        assert key !in kept;
      }
    }
  }

  /* ----- a sweep that is taken back ----- */

  ghost predicate Mentions(pairs: seq<Pair>, k: Key) {
    exists i :: KeyAt(pairs, i, k)
  }

  lemma {:induction false} PutAllBack(before: Contents, m: Contents, pairs: seq<Pair>)
    requires forall k :: k in m ==> Find(before, k) == Some(m[k])
    requires forall i :: 0 <= i < |pairs| ==> Find(before, pairs[i].key) == Some(pairs[i].entry)
    ensures var r := PutAll(m, pairs);
            && (forall k :: k in r ==> Find(before, k) == Some(r[k]))
            && (forall k :: k in r <==> k in m || Mentions(pairs, k))
    decreases pairs
  {
    if pairs != [] {
      var m', tail := m[pairs[0].key := pairs[0].entry], pairs[1..];
      PutAllBack(before, m', tail);
      forall k ensures Mentions(pairs, k) <==> k == pairs[0].key || Mentions(tail, k) {
        if k == pairs[0].key { assert KeyAt(pairs, 0, k); }
        if i :| KeyAt(tail, i, k) { assert KeyAt(pairs, i + 1, k); }
        if i :| KeyAt(pairs, i, k) { assert i > 0 ==> KeyAt(tail, i - 1, k); }
      }
    }
  }

  /** A sweep followed by the restoration of everything it returned changes nothing. */
  lemma SweepRestored(s: State, t: State, now: int, limit: nat, removed: seq<Pair>)
    requires Sweep(s, t, now, limit, removed)
    ensures Restore(t, removed) == s
  {
    PutAllBack(s.contents, t.contents, removed);
    var r := PutAll(t.contents, removed);
    forall k ensures k in r <==> k in s.contents {
      if i :| KeyAt(removed, i, k) { assert Find(s.contents, removed[i].key).Some?; }
      if k in s.contents && k !in t.contents { assert Mentions(removed, k); }
    }
    assert r == s.contents;
  }

  datatype Operation =
    | DoInsert(now: int, key: Key, entry: Entry)
    | DoLookup(now: int, key: Key, ignoreFixedTtl: bool)
    | DoSweep(now: int, limit: nat)
    | DoSweepAndRestore(now: int, limit: nat)
    | DoTransact(key: Key, entry: Entry, applied: bool)

  ghost predicate RolledBack(s: State, t: State, now: int, limit: nat, mid: State, removed: seq<Pair>) {
    Sweep(s, mid, now, limit, removed) && t == Restore(mid, removed)
  }

  ghost predicate Step(capacity: nat, s: State, t: State, op: Operation) {
    match op
    case DoInsert(now, key, entry) => Insert(capacity, s, t, now, key, entry)
    case DoLookup(now, key, ignore) => exists r :: Lookup(s, t, now, key, ignore, r)
    case DoSweep(now, limit) => exists removed :: Sweep(s, t, now, limit, removed)
    case DoSweepAndRestore(now, limit) => exists mid, removed :: RolledBack(s, t, now, limit, mid, removed)
    case DoTransact(key, entry, applied) => Transact(capacity, s, t, key, entry, applied)
  }

  lemma StepBalanced(capacity: nat, s: State, t: State, op: Operation)
    requires Balanced(capacity, s) && Step(capacity, s, t, op)
    ensures Balanced(capacity, t)
  {
    match op {
      case DoInsert(now, key, entry) => InsertBalanced(capacity, s, t, now, key, entry);
      case DoLookup(now, key, ignore) =>
        var r :| Lookup(s, t, now, key, ignore, r);
        LookupBalanced(capacity, s, t, now, key, ignore, r);
      case DoSweep(now, limit) =>
        var removed :| Sweep(s, t, now, limit, removed);
        SweepBalanced(capacity, s, t, now, limit, removed);
      case DoSweepAndRestore(now, limit) =>
        var mid, removed :| RolledBack(s, t, now, limit, mid, removed);
        SweepRestored(s, mid, now, limit, removed);
      case DoTransact(key, entry, applied) => TransactBalanced(capacity, s, t, key, entry, applied);
    }
  }

  const EMPTY := State(map[], 0, 0, 0, 0)

  ghost predicate Linked(capacity: nat, run: seq<State>, ops: seq<Operation>, i: nat) {
    i < |ops| && i + 1 < |run| && Step(capacity, run[i], run[i + 1], ops[i])
  }

  /**
    In every state of every run from an empty store, the keys ever inserted are those
    present plus those counted as removed, no more expired than were removed, and the
    capacity is respected.
  */
  lemma {:induction false} RunBalanced(capacity: nat, run: seq<State>, ops: seq<Operation>, i: nat)
    requires |run| == |ops| + 1 && run[0] == EMPTY && i < |run|
    requires forall j :: 0 <= j < |ops| ==> Linked(capacity, run, ops, j)
    ensures Balanced(capacity, run[i])
    decreases i
  {
    if i > 0 {
      RunBalanced(capacity, run, ops, i - 1);
      assert Linked(capacity, run, ops, i - 1);
      StepBalanced(capacity, run[i - 1], run[i], ops[i - 1]);
    }
  }

  /** What an insertion may evict: an entry that is still live goes only from a store full of live entries. */
  lemma LiveEvictedOnlyWhenFull(capacity: nat, s: State, t: State, now: int, key: Key, entry: Entry, victim: Key)
    requires capacity > 0 && Insert(capacity, s, t, now, key, entry)
    requires victim in s.contents && victim !in t.contents && s.contents[victim].Expires() > now
    ensures |Live(s.contents, now)| >= capacity && key !in s.contents
    ensures forall k :: k in t.contents && k != key ==> s.contents[victim].Expires() <= t.contents[k].Expires()
  {
    assert key !in s.contents;
    var kept :| InsertNew(capacity, s, t, now, key, entry, kept);
    assert victim in Live(s.contents, now) && victim !in kept;
  }

  /* ----- the store ----- */

  /** `evicted` has been taken out of `before`, oldest first. */
  ghost predicate Trimming(before: Contents, left: Contents, evicted: seq<Pair>) {
    && OldestGone(before, left) && |evicted| + |left| == |before|
    && (evicted == [] ==> left == before)
    && (forall i :: 0 <= i < |evicted| ==> Find(before, evicted[i].key) == Some(evicted[i].entry))
    && (forall k :: k in before ==> k in left || Mentions(evicted, k))
  }

  lemma TrimStep(before: Contents, left: Contents, evicted: seq<Pair>, key: Key)
    requires Trimming(before, left, evicted) && Oldest(left, key)
    ensures Trimming(before, left - {key}, evicted + [Pair(key, left[key])])
  {
    RemoveSize(left, key);
    var evicted' := evicted + [Pair(key, left[key])];
    forall k | k in before && k !in left - {key} ensures Mentions(evicted', k) {
      if k == key {
        assert KeyAt(evicted', |evicted|, k);
      } else {
        assert Mentions(evicted, k);
        var i :| KeyAt(evicted, i, k);
        assert KeyAt(evicted', i, k);
      }
    }
  }

  /** Putting the evicted entries back restores what was there. */
  lemma TrimmedBack(before: Contents, left: Contents, evicted: seq<Pair>)
    requires Trimming(before, left, evicted)
    ensures PutAll(left, evicted) == before
  {
    PutAllBack(before, left, evicted);
    forall k | Mentions(evicted, k) ensures k in before {
      var i :| KeyAt(evicted, i, k);
    }
  }

  class DnsCacheStore {
    const capacity: nat
    const entries: DnsCacheEntries
    var hits: nat
    var expired: nat
    var removals: nat
    ghost var newKeys: nat

    ghost predicate Valid()
      reads this, entries
    {
      entries.Valid()
    }

    ghost function Abstract(): State
      reads this, entries
    {
      State(entries.contents, hits, expired, removals, newKeys)
    }

    constructor (capacity: nat)
      ensures Valid() && fresh(entries) && this.capacity == capacity && Abstract() == EMPTY
    {
      this.capacity := capacity;
      entries := new DnsCacheEntries(capacity);
      hits, expired, removals, newKeys := 0, 0, 0, 0;
    }

    /** The loop that drops the oldest entries until there is room, shared by both ways of inserting. */
    method MakeRoom() returns (evicted: seq<Pair>)
      requires Valid() && capacity > 0
      modifies entries
      ensures Valid() && Trimming(old(entries.contents), entries.contents, evicted)
      ensures Trimmed(old(entries.contents), entries.contents, capacity)
    {
      evicted := [];
      while entries.Len() >= capacity
        invariant Valid() && Trimming(old(entries.contents), entries.contents, evicted)
        invariant evicted == [] || (|entries.contents| + 1 >= capacity && old(|entries.contents|) >= capacity)
        decreases |entries.contents|
      {
        var victim := entries.OldestKey();
        if victim.None? { break; }
        TrimStep(old(entries.contents), entries.contents, evicted, victim.value);
        RemoveSize(entries.contents, victim.value);
        var entry := entries.Remove(victim.value);
        if entry.Some? { evicted := evicted + [Pair(victim.value, entry.value)]; }
      }
    }

    /** `evict_entries`. */
    method EvictEntries(now: int)
      requires Valid() && capacity > 0
      modifies `expired, `removals, entries
      ensures Valid() && Evicted(old(entries.contents), entries.contents, now, capacity)
      ensures expired == old(expired) + Minus(old(|entries.contents|), |Live(old(entries.contents), now)|)
      ensures removals == old(removals) + Minus(old(|entries.contents|), |entries.contents|)
    {
      var count := entries.RemoveExpired(now);
      expired := expired + count;
      removals := removals + count;
      var evicted := MakeRoom();
      removals := removals + |evicted|;
    }

    method InsertEntry(now: int, key: Key, entry: Entry)
      requires Valid()
      modifies `expired, `removals, `newKeys, entries
      ensures Valid() && Insert(capacity, old(Abstract()), Abstract(), now, key, entry)
    {
      if capacity == 0 { return; }
      var present := entries.Get(key);
      if present.None? {
        EvictEntries(now);
        newKeys := newKeys + 1;
      }
      ghost var kept := entries.contents;
      entries.Insert(key, entry);
      if present.None? {
        assert InsertNew(capacity, old(Abstract()), Abstract(), now, key, entry, kept);
      }
    }

    /** `insert`: the key becomes the entry's routing owner. */
    method InsertOwned(now: int, key: Key, entry: Entry)
      requires Valid()
      modifies `expired, `removals, `newKeys, entries
      ensures Valid() && Insert(capacity, old(Abstract()), Abstract(), now, key, entry.(owner := key))
    {
      InsertEntry(now, key, entry.(owner := key));
    }

    method LookupRef(now: int, key: Key, ignoreFixedTtl: bool) returns (r: Option<Entry>)
      requires Valid()
      modifies `hits, `expired, `removals, entries
      ensures Valid() && Lookup(old(Abstract()), Abstract(), now, key, ignoreFixedTtl, r)
    {
      var found := entries.Get(key);
      if found.None? { return None; }
      if found.value.LookupDeadline(ignoreFixedTtl) > now {
        hits := hits + 1;
        r := entries.Get(key);
        return;
      }
      if found.value.Expires() > now { return None; }
      var gone := entries.Remove(key);
      expired := expired + 1;
      removals := removals + 1;
      return None;
    }

    method SweepEntriesLimited(now: int, limit: nat) returns (removed: seq<Pair>)
      requires Valid()
      modifies `expired, `removals, entries
      ensures Valid() && Sweep(old(Abstract()), Abstract(), now, limit, removed)
    {
      removed := entries.RemoveExpiredEntries(now, limit);
      expired := expired + |removed|;
      removals := removals + |removed|;
    }

    method PutBack(pairs: seq<Pair>)
      requires Valid()
      modifies entries
      ensures Valid() && entries.contents == PutAll(old(entries.contents), pairs)
    {
      for i := 0 to |pairs|
        invariant Valid() && PutAll(entries.contents, pairs[i..]) == PutAll(old(entries.contents), pairs)
      {
        assert pairs[i..][1..] == pairs[i + 1..];
        entries.Insert(pairs[i].key, pairs[i].entry);
      }
    }

    method RestoreSweptEntries(pairs: seq<Pair>)
      requires Valid()
      modifies `expired, `removals, entries
      ensures Valid() && Abstract() == Restore(old(Abstract()), pairs)
    {
      PutBack(pairs);
      expired := Minus(expired, |pairs|);
      removals := Minus(removals, |pairs|);
    }

    /** `apply` is the owner's transaction on the evicted entries and the new one. */
    method InsertWithEviction(key: Key, entry: Entry, apply: (seq<Pair>, Entry) -> bool)
      returns (inserted: bool, ghost applied: bool, ghost victims: seq<Pair>)
      requires Valid()
      modifies `removals, `newKeys, entries
      ensures Valid() && Transact(capacity, old(Abstract()), Abstract(), key, entry, applied)
      ensures inserted <==> capacity > 0 && applied
      ensures capacity > 0 ==> (applied <==> apply(victims, entry))
      ensures inserted ==> removals == old(removals) + |victims|
    {
      applied, victims := true, [];
      if capacity == 0 { return false, applied, victims; }
      var evicted: seq<Pair> := [];
      var present := entries.Get(key);
      if present.None? { evicted := MakeRoom(); }
      victims := evicted;
      if !apply(evicted, entry) {
        applied := false;
        if present.None? { TrimmedBack(old(entries.contents), entries.contents, evicted); }
        PutBack(evicted);
        return false, applied, victims;
      }
      removals := removals + |evicted|;
      if present.None? { newKeys := newKeys + 1; }
      ghost var kept := entries.contents;
      entries.Insert(key, entry);
      assert InsertedWithEviction(capacity, old(Abstract()), Abstract(), key, entry, kept);
      return true, applied, victims;
    }
  }
}
