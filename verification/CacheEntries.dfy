/**
  The two backends of the DNS cache (crates/dae-dns/src/cache/entries.rs): a short
  list, and a hash table with an index of deadlines.  Both are shown to be the same
  finite map.
*/
module CacheEntries {
  import opened Bytes

  /** Keys are numbered in their order. */
  type Key = nat

  /** A cached response: the routing owner, the two deadlines, and everything else. */
  datatype Entry = Entry(owner: Key, deadline: int, original: int, body: nat) {
    /** `cache_expires_at`. */
    function Expires(): int {
      if deadline < original then original else deadline
    }

    function LookupDeadline(ignoreFixedTtl: bool): int {
      if ignoreFixedTtl then original else deadline
    }
  }

  datatype Pair = Pair(key: Key, entry: Entry)

  type Contents = map<Key, Entry>

  function Find(m: Contents, k: Key): Option<Entry> {
    if k in m then Some(m[k]) else None
  }

  ghost function Live(m: Contents, now: int): Contents {
    map k | k in m && m[k].Expires() > now :: m[k]
  }

  ghost function Expired(m: Contents, now: int): set<Key> {
    set k | k in m && m[k].Expires() <= now
  }

  lemma RemoveSize(m: Contents, k: Key)
    requires k in m
    ensures |m - {k}| == |m| - 1
  {
    assert m == (m - {k})[k := m[k]];
  }

  /* ----- the list ----- */

  predicate KeyAt(list: seq<Pair>, i: int, k: Key) {
    0 <= i < |list| && list[i].key == k
  }

  /** `list` holds the pairs of `m`, each once. */
  ghost predicate Holds(list: seq<Pair>, m: Contents) {
    && |list| == |m|
    && (forall i, j :: 0 <= i < j < |list| ==> list[i].key != list[j].key)
    && (forall i :: 0 <= i < |list| ==> Find(m, list[i].key) == Some(list[i].entry))
    && (forall k :: k in m ==> exists i :: KeyAt(list, i, k))
  }

  method Position(list: seq<Pair>, key: Key) returns (r: Option<nat>)
    ensures r.Some? ==> r.value < |list| && list[r.value].key == key
    ensures r.None? ==> forall i :: 0 <= i < |list| ==> list[i].key != key
  {
    for i := 0 to |list|
      invariant forall j :: 0 <= j < i ==> list[j].key != key
    {
      if list[i].key == key { return Some(i); }
    }
    return None;
  }

  lemma PositionIs(list: seq<Pair>, m: Contents, key: Key, at: Option<nat>)
    requires Holds(list, m)
    requires at.Some? ==> at.value < |list| && list[at.value].key == key
    requires at.None? ==> forall i :: 0 <= i < |list| ==> list[i].key != key
    ensures Find(m, key) == if at.Some? then Some(list[at.value].entry) else None
  {
    if key in m {
      var i :| KeyAt(list, i, key);
    }
  }

  lemma ReplacePairs(list: seq<Pair>, m: Contents, i: nat, entry: Entry)
    requires Holds(list, m) && i < |list|
    ensures var list', m' := list[i := Pair(list[i].key, entry)], m[list[i].key := entry];
            && (forall a, b :: 0 <= a < b < |list'| ==> list'[a].key != list'[b].key)
            && (forall j :: 0 <= j < |list'| ==> Find(m', list'[j].key) == Some(list'[j].entry))
  {
  }

  lemma ReplaceSize(m: Contents, key: Key, entry: Entry)
    requires key in m
    ensures |m[key := entry]| == |m|
  {
    assert m[key := entry].Keys == m.Keys;
    assert |m[key := entry]| == |m[key := entry].Keys| == |m|;
  }

  lemma HoldsReplace(list: seq<Pair>, m: Contents, i: nat, entry: Entry)
    requires Holds(list, m) && i < |list|
    ensures Holds(list[i := Pair(list[i].key, entry)], m[list[i].key := entry])
  {
    var key := list[i].key;
    var list', m' := list[i := Pair(key, entry)], m[key := entry];
    ReplacePairs(list, m, i, entry);
    assert key in m by { assert Find(m, list[i].key).Some?; }
    ReplaceSize(m, key, entry);
    forall k | k in m' ensures exists j :: KeyAt(list', j, k) {
      var j :| KeyAt(list, j, k);
      assert KeyAt(list', j, k);
    }
  }

  lemma HoldsPush(list: seq<Pair>, m: Contents, key: Key, entry: Entry)
    requires Holds(list, m) && key !in m
    ensures Holds(list + [Pair(key, entry)], m[key := entry])
  {
    var list', m' := list + [Pair(key, entry)], m[key := entry];
    forall k | k in m' ensures exists j :: KeyAt(list', j, k) {
      if k == key {
        assert KeyAt(list', |list|, k);
      } else {
        var j :| KeyAt(list, j, k);
        assert KeyAt(list', j, k);
      }
    }
    forall i | 0 <= i < |list| ensures list[i].key != key { assert Find(m, list[i].key).Some?; }
  }

  /** `Vec::swap_remove`. */
  function SwapRemove(list: seq<Pair>, i: nat): (r: seq<Pair>)
    requires i < |list|
    ensures |r| == |list| - 1
    ensures forall j :: 0 <= j < |r| ==> r[j] == if j == i then list[|list| - 1] else list[j]
  {
    list[i := list[|list| - 1]][..|list| - 1]
  }

  lemma RemovePairs(list: seq<Pair>, m: Contents, i: nat)
    requires Holds(list, m) && i < |list|
    ensures var list', m' := SwapRemove(list, i), m - {list[i].key};
            && (forall a, b :: 0 <= a < b < |list'| ==> list'[a].key != list'[b].key)
            && (forall j :: 0 <= j < |list'| ==> Find(m', list'[j].key) == Some(list'[j].entry))
  {
  }

  lemma HoldsRemove(list: seq<Pair>, m: Contents, i: nat)
    requires Holds(list, m) && i < |list|
    ensures Holds(SwapRemove(list, i), m - {list[i].key})
  {
    var last, key := |list| - 1, list[i].key;
    var list', m' := SwapRemove(list, i), m - {key};
    RemovePairs(list, m, i);
    assert key in m by { assert Find(m, list[i].key).Some?; }
    RemoveSize(m, key);
    forall k | k in m' ensures exists j :: KeyAt(list', j, k) {
      var j :| KeyAt(list, j, k);
      assert KeyAt(list', if j == last then i else j, k);
    }
  }

  /* ----- the table and its index ----- */

  datatype Deadline = Deadline(at: int, key: Key)

  predicate Before(a: Deadline, b: Deadline) {
    a.at < b.at || (a.at == b.at && a.key <= b.key)
  }

  /** `BTreeSet::first`. */
  ghost predicate IsFirst(deadlines: set<Deadline>, d: Deadline) {
    d in deadlines && forall x :: x in deadlines ==> Before(d, x)
  }

  method First(deadlines: set<Deadline>) returns (r: Option<Deadline>)
    ensures r.None? <==> deadlines == {}
    ensures r.Some? ==> IsFirst(deadlines, r.value)
  {
    if deadlines == {} { return None; }
    var best :| best in deadlines;
    var rest := deadlines - {best};
    while rest != {}
      invariant rest <= deadlines && best in deadlines
      invariant forall x :: x in deadlines && x !in rest ==> Before(best, x)
      decreases |rest|
    {
      var x :| x in rest;
      if Before(x, best) { best := x; }
      rest := rest - {x};
    }
    return Some(best);
  }

  /** The deadline index that belongs to a table. */
  function Index(table: Contents): set<Deadline> {
    set k | k in table :: Deadline(table[k].Expires(), k)
  }

  lemma IndexInsert(table: Contents, key: Key, entry: Entry)
    ensures var rest := if key in table then Index(table) - {Deadline(table[key].Expires(), key)} else Index(table);
            Index(table[key := entry]) == rest + {Deadline(entry.Expires(), key)}
  {
    var rest := if key in table then Index(table) - {Deadline(table[key].Expires(), key)} else Index(table);
    var table' := table[key := entry];
    forall d | d in Index(table') ensures d in rest + {Deadline(entry.Expires(), key)} {
      if d.key != key { assert d.key in table; }
    }
    forall d | d in rest + {Deadline(entry.Expires(), key)} ensures d in Index(table') {
      assert d.key in table';
    }
  }

  lemma IndexRemove(table: Contents, key: Key)
    requires key in table
    ensures Index(table - {key}) == Index(table) - {Deadline(table[key].Expires(), key)}
  {
    forall d | d in Index(table) - {Deadline(table[key].Expires(), key)} ensures d in Index(table - {key}) {
      assert d.key in table - {key};
    }
    forall d | d in Index(table - {key}) ensures d in Index(table) { assert d.key in table; }
  }

  /** The first deadline belongs to an entry that expires no later than any other. */
  lemma FirstIsOldest(table: Contents, d: Deadline)
    requires IsFirst(Index(table), d)
    ensures d.key in table && table[d.key].Expires() == d.at
    ensures forall k :: k in table ==> d.at <= table[k].Expires()
  {
    forall k | k in table ensures d.at <= table[k].Expires() {
      assert Deadline(table[k].Expires(), k) in Index(table);
    }
  }

  /* ----- dropping expired entries ----- */

  /** `after` is `before` without `removed`, all of it expired. */
  ghost predicate Dropped(before: Contents, after: Contents, now: int, removed: seq<Pair>) {
    && |after| + |removed| == |before|
    && (forall k :: k in after ==> Find(before, k) == Some(after[k]))
    && (forall k :: k in before && k !in after ==> exists i :: KeyAt(removed, i, k))
    && (forall i :: 0 <= i < |removed| ==>
      Find(before, removed[i].key) == Some(removed[i].entry) && removed[i].key !in after && removed[i].entry.Expires() <= now)
    && (forall i, j :: 0 <= i < j < |removed| ==> removed[i].key != removed[j].key)
  }

  lemma DroppedStep(before: Contents, after: Contents, now: int, removed: seq<Pair>, key: Key)
    requires Dropped(before, after, now, removed) && key in after && after[key].Expires() <= now
    ensures Dropped(before, after - {key}, now, removed + [Pair(key, after[key])])
  {
    RemoveSize(after, key);
    var removed' := removed + [Pair(key, after[key])];
    forall k | k in before && k !in after - {key} ensures exists i :: KeyAt(removed', i, k) {
      if k == key {
        assert KeyAt(removed', |removed|, k);
      } else {
        var i :| KeyAt(removed, i, k);
        assert KeyAt(removed', i, k);
      }
    }
  }

  lemma DroppedAll(before: Contents, after: Contents, now: int, removed: seq<Pair>)
    requires Dropped(before, after, now, removed) && forall k :: k in after ==> after[k].Expires() > now
    ensures after == Live(before, now)
  {
    forall k | k in before && k !in after ensures before[k].Expires() <= now {
      var i :| KeyAt(removed, i, k);
      assert Find(before, removed[i].key) == Some(removed[i].entry);
    }
  }

  lemma ListLive(list: seq<Pair>, m: Contents, now: int)
    requires Holds(list, m) && forall i :: 0 <= i < |list| ==> list[i].entry.Expires() > now
    ensures forall k :: k in m ==> m[k].Expires() > now
  {
    forall k | k in m ensures m[k].Expires() > now {
      var i :| KeyAt(list, i, k);
    }
  }

  predicate More(limit: Option<nat>, n: nat) {
    limit.None? || n < limit.value
  }

  lemma DroppedNothing(m: Contents, now: int)
    ensures Dropped(m, m, now, [])
  {
  }

  /** Where the list loop stands: `list` holds what is kept, its first `index` pairs are live. */
  ghost predicate Sweeping(list: seq<Pair>, before: Contents, kept: Contents, now: int, removed: seq<Pair>, index: nat) {
    && Holds(list, kept) && Dropped(before, kept, now, removed)
    && index <= |list| && forall i :: 0 <= i < index ==> list[i].entry.Expires() > now
  }

  lemma SweepStep(list: seq<Pair>, before: Contents, kept: Contents, now: int, removed: seq<Pair>, i: nat)
    requires Sweeping(list, before, kept, now, removed, i) && i < |list| && list[i].entry.Expires() <= now
    ensures Sweeping(SwapRemove(list, i), before, kept - {list[i].key}, now, removed + [list[i]], i)
  {
    var pair := list[i];
    assert Find(kept, pair.key) == Some(pair.entry);
    DroppedStep(before, kept, now, removed, pair.key);
    HoldsRemove(list, kept, i);
  }

  lemma SweepStarts(list: seq<Pair>, m: Contents, now: int)
    requires Holds(list, m)
    ensures Sweeping(list, m, m, now, [], 0)
  {
    DroppedNothing(m, now);
  }

  lemma SweepPasses(list: seq<Pair>, before: Contents, kept: Contents, now: int, removed: seq<Pair>, i: nat)
    requires Sweeping(list, before, kept, now, removed, i) && i < |list| && list[i].entry.Expires() > now
    ensures Sweeping(list, before, kept, now, removed, i + 1)
  {
  }

  /** The list loop of `remove_expired` (no limit) and `remove_expired_entries`. */
  method SweepList(start: seq<Pair>, ghost m: Contents, now: int, limit: Option<nat>)
    returns (list: seq<Pair>, removed: seq<Pair>, ghost kept: Contents)
    requires Holds(start, m)
    ensures Holds(list, kept) && Dropped(m, kept, now, removed)
    ensures More(limit, |removed|) ==> kept == Live(m, now)
    ensures limit.Some? ==> |removed| <= limit.value
  {
    var index;
    list, removed, kept, index := SweepOn(start, m, now, limit);
    if More(limit, |removed|) { SweptList(list, m, kept, now, removed, index); }
  }

  method SweepOn(start: seq<Pair>, ghost m: Contents, now: int, limit: Option<nat>)
    returns (list: seq<Pair>, removed: seq<Pair>, ghost kept: Contents, index: nat)
    requires Holds(start, m)
    ensures Sweeping(list, m, kept, now, removed, index) && (index == |list| || !More(limit, |removed|))
    ensures limit.Some? ==> |removed| <= limit.value
  {
    list, removed, kept, index := start, [], m, 0;
    SweepStarts(list, m, now);
    while index < |list| && More(limit, |removed|)
      invariant index <= |list| && Sweeping(list, m, kept, now, removed, index)
      invariant limit.Some? ==> |removed| <= limit.value
      decreases |list| - index
    {
      if list[index].entry.Expires() <= now {
        SweepStep(list, m, kept, now, removed, index);
        removed, list, kept := removed + [list[index]], SwapRemove(list, index), kept - {list[index].key};
      } else {
        SweepPasses(list, m, kept, now, removed, index);
        index := index + 1;
      }
    }
  }

  lemma SweptList(list: seq<Pair>, before: Contents, kept: Contents, now: int, removed: seq<Pair>, index: nat)
    requires Sweeping(list, before, kept, now, removed, index) && index == |list|
    ensures kept == Live(before, now)
  {
    ListLive(list, kept, now);
    DroppedAll(before, kept, now, removed);
  }

  lemma NoneLeft(table: Contents, now: int)
    requires forall d :: d in Index(table) ==> d.at > now
    ensures forall k :: k in table ==> table[k].Expires() > now
  {
    forall k | k in table ensures table[k].Expires() > now {
      assert Deadline(table[k].Expires(), k) in Index(table);
    }
  }

  predicate Recorded(m: Contents, k: Key, index: set<Deadline>) {
    k in m && Deadline(m[k].Expires(), k) in index
  }

  /**
    From the index the records outside `deadlines` were taken, the earliest first, and
    exactly the entries they describe were dropped from the table.
  */
  ghost predicate Popped(start: Contents, index: set<Deadline>, table: Contents, deadlines: set<Deadline>, now: int) {
    && deadlines <= index
    && (forall k :: k in start ==> (k !in table <==> Recorded(start, k, index - deadlines)))
    && (forall d :: d in index - deadlines ==> d.at <= now)
    && (forall d, x :: d in index - deadlines && x in deadlines ==> Before(d, x))
  }

  lemma PopStep(start: Contents, index: set<Deadline>, table: Contents, deadlines: set<Deadline>, now: int, removed: seq<Pair>, d: Deadline)
    requires Popped(start, index, table, deadlines, now) && Dropped(start, table, now, removed)
    requires IsFirst(deadlines, d) && d.at <= now
    ensures Popped(start, index, if Recorded(table, d.key, {d}) then table - {d.key} else table, deadlines - {d}, now)
  {
    var table' := if Recorded(table, d.key, {d}) then table - {d.key} else table;
    forall k | k in start ensures k !in table' <==> Recorded(start, k, index - (deadlines - {d})) {
      if k in table { assert Find(start, k) == Some(table[k]); }
    }
  }

  /** An index in order stays so. */
  lemma PopInOrder(table: Contents, deadlines: set<Deadline>, d: Deadline)
    requires deadlines == Index(table) && d in deadlines
    ensures Recorded(table, d.key, {d}) && deadlines - {d} == Index(table - {d.key})
  {
    IndexRemove(table, d.key);
  }

  /** Where the index loop stands: `examined` records were taken, the dropped entries are `removed`. */
  ghost predicate Popping(start: Contents, index: set<Deadline>, now: int, table: Contents, deadlines: set<Deadline>,
                          removed: seq<Pair>, examined: nat)
  {
    && Dropped(start, table, now, removed) && Popped(start, index, table, deadlines, now)
    && |deadlines| + examined == |index|
    && (index == Index(start) ==> deadlines == Index(table) && examined == |removed|)
  }

  lemma PoppingStarts(start: Contents, index: set<Deadline>, now: int)
    ensures Popping(start, index, now, start, index, [], 0)
  {
    DroppedNothing(start, now);
  }

  lemma PoppingStep(start: Contents, index: set<Deadline>, now: int, table: Contents, deadlines: set<Deadline>,
                    removed: seq<Pair>, examined: nat, d: Deadline)
    requires Popping(start, index, now, table, deadlines, removed, examined) && IsFirst(deadlines, d) && d.at <= now
    ensures if Recorded(table, d.key, {d})
            then Popping(start, index, now, table - {d.key}, deadlines - {d}, removed + [Pair(d.key, table[d.key])], examined + 1)
            else Popping(start, index, now, table, deadlines - {d}, removed, examined + 1)
  {
    PopStep(start, index, table, deadlines, now, removed, d);
    if index == Index(start) { PopInOrder(table, deadlines, d); }
    if Recorded(table, d.key, {d}) { DroppedStep(start, table, now, removed, d.key); }
  }

  /** The index loop of the same two, whatever state the index is in; `examined` records were taken. */
  method SweepTable(start: Contents, index: set<Deadline>, now: int, limit: Option<nat>)
    returns (table: Contents, deadlines: set<Deadline>, removed: seq<Pair>, examined: nat)
    ensures Dropped(start, table, now, removed) && Popped(start, index, table, deadlines, now)
    ensures |deadlines| + examined == |index| && (limit.Some? ==> examined <= limit.value)
    ensures More(limit, examined) ==> forall d :: d in deadlines ==> d.at > now
    ensures index == Index(start) ==> deadlines == Index(table) && examined == |removed|
  {
    table, deadlines, removed, examined := start, index, [], 0;
    PoppingStarts(start, index, now);
    var first := First(deadlines);
    while More(limit, examined) && first.Some? && first.value.at <= now
      invariant Popping(start, index, now, table, deadlines, removed, examined)
      invariant limit.Some? ==> examined <= limit.value
      invariant first.None? <==> deadlines == {}
      invariant first.Some? ==> IsFirst(deadlines, first.value)
      decreases |deadlines|
    {
      var d := first.value;
      PoppingStep(start, index, now, table, deadlines, removed, examined, d);
      deadlines, examined := deadlines - {d}, examined + 1;
      if d.key in table && table[d.key].Expires() == d.at {
        removed := removed + [Pair(d.key, table[d.key])];
        table := table - {d.key};
      }
      first := First(deadlines);
    }
  }

  /** With an index in order, a loop that ran to its end leaves the live entries. */
  lemma SweptTable(start: Contents, table: Contents, now: int, removed: seq<Pair>)
    requires Dropped(start, table, now, removed) && forall d :: d in Index(table) ==> d.at > now
    ensures table == Live(start, now)
  {
    NoneLeft(table, now);
    DroppedAll(start, table, now, removed);
  }

  /* ----- how many go ----- */

  lemma {:induction false} SubsetSize(a: set<Key>, b: set<Key>)
    requires a <= b
    ensures |a| <= |b|
    decreases a
  {
    if a != {} {
      var x :| x in a;
      SubsetSize(a - {x}, b - {x});
    }
  }

  lemma LiveOrExpired(m: Contents, now: int)
    ensures |m| == |Live(m, now)| + |Expired(m, now)|
  {
    assert m.Keys == Live(m, now).Keys + Expired(m, now) && Live(m, now).Keys !! Expired(m, now);
  }

  /** No more can go than have expired, and all of them have gone once only live entries are left. */
  lemma DroppedCount(before: Contents, after: Contents, now: int, removed: seq<Pair>)
    requires Dropped(before, after, now, removed)
    ensures |removed| <= |Expired(before, now)|
    ensures after == Live(before, now) ==> |removed| == |Expired(before, now)|
  {
    LiveOrExpired(before, now);
    forall k | k in before && k !in after ensures k !in Live(before, now) {
      var i :| KeyAt(removed, i, k);
      assert Find(before, removed[i].key) == Some(removed[i].entry);
    }
    SubsetSize(Live(before, now).Keys, after.Keys);
  }

  function AtMost(limit: Option<nat>, n: nat): nat {
    if limit.Some? && limit.value < n then limit.value else n
  }

  /** A key that expires no later than any other. */
  ghost predicate Oldest(m: Contents, key: Key) {
    key in m && forall k :: k in m ==> m[key].Expires() <= m[k].Expires()
  }

  method OldestOfList(list: seq<Pair>, ghost m: Contents) returns (r: Option<Key>)
    requires Holds(list, m)
    ensures r.None? <==> m == map[]
    ensures r.Some? ==> Oldest(m, r.value)
  {
    if list == [] { return None; }
    var best := 0;
    for i := 1 to |list|
      invariant 0 <= best < |list|
      invariant forall j :: 0 <= j < i ==> list[best].entry.Expires() <= list[j].entry.Expires()
    {
      if list[i].entry.Expires() < list[best].entry.Expires() { best := i; }
    }
    assert Find(m, list[best].key) == Some(list[best].entry);
    forall k | k in m ensures list[best].entry.Expires() <= m[k].Expires() {
      var i :| KeyAt(list, i, k);
    }
    return Some(list[best].key);
  }

  /**
    The victim of the indexed backend.  Whatever state the index is in, the key found
    is in the table, so removing it makes progress; an index in order finds the oldest.
  */
  method OldestOfTable(table: Contents, index: set<Deadline>) returns (r: Option<Key>, deadlines: set<Deadline>)
    ensures r.None? <==> table == map[]
    ensures r.Some? ==> r.value in table
    ensures index == Index(table) ==> deadlines == index && (r.Some? ==> Oldest(table, r.value))
  {
    deadlines := index;
    var first := First(deadlines);
    var stale := first.Some? && (first.value.key !in table || table[first.value.key].Expires() != first.value.at);
    if |deadlines| != |table| || stale {
      deadlines := Index(table);
      first := First(deadlines);
    }
    if table != map[] {
      var k :| k in table;
      assert Deadline(table[k].Expires(), k) in Index(table);
    }
    if first.None? { return None, deadlines; }
    if deadlines == Index(table) { FirstIsOldest(table, first.value); }
    return Some(first.value.key), deadlines;
  }

  datatype Backend = Small(list: seq<Pair>) | Indexed(table: Contents, deadlines: set<Deadline>)

  const SMALL_MAX := 16

  /** `DnsCacheEntries`. */
  class DnsCacheEntries {
    var backend: Backend
    ghost var contents: Contents

    ghost predicate Valid()
      reads this
    {
      match backend
      case Small(list) => Holds(list, contents)
      case Indexed(table, deadlines) => table == contents && deadlines == Index(table)
    }

    constructor (capacity: nat)
      ensures Valid() && contents == map[]
    {
      backend := if capacity <= SMALL_MAX then Small([]) else Indexed(map[], {});
      contents := map[];
    }

    function Len(): (n: nat)
      requires Valid()
      reads this
      ensures n == |contents|
    {
      match backend
      case Small(list) => |list|
      case Indexed(table, _) => |table|
    }

    method Get(key: Key) returns (r: Option<Entry>)
      requires Valid()
      ensures r == Find(contents, key)
    {
      match backend {
        case Small(list) =>
          var at := Position(list, key);
          PositionIs(list, contents, key, at);
          r := if at.Some? then Some(list[at.value].entry) else None;
        case Indexed(table, _) =>
          r := Find(table, key);
      }
    }

    method Insert(key: Key, entry: Entry)
      requires Valid()
      modifies this
      ensures Valid() && contents == old(contents)[key := entry]
    {
      match backend {
        case Small(list) =>
          var at := Position(list, key);
          PositionIs(list, contents, key, at);
          if at.Some? {
            HoldsReplace(list, contents, at.value, entry);
            backend := Small(list[at.value := Pair(key, entry)]);
          } else {
            HoldsPush(list, contents, key, entry);
            backend := Small(list + [Pair(key, entry)]);
          }
        case Indexed(table, deadlines) =>
          IndexInsert(table, key, entry);
          var rest := if key in table then deadlines - {Deadline(table[key].Expires(), key)} else deadlines;
          backend := Indexed(table[key := entry], rest + {Deadline(entry.Expires(), key)});
      }
      contents := contents[key := entry];
    }

    method Remove(key: Key) returns (r: Option<Entry>)
      requires Valid()
      modifies this
      ensures Valid() && contents == old(contents) - {key} && r == Find(old(contents), key)
    {
      match backend {
        case Small(list) =>
          var at := Position(list, key);
          PositionIs(list, contents, key, at);
          if at.None? { assert contents - {key} == contents; return None; }
          HoldsRemove(list, contents, at.value);
          r := Some(list[at.value].entry);
          backend := Small(SwapRemove(list, at.value));
        case Indexed(table, deadlines) =>
          if key !in table { assert contents - {key} == contents; return None; }
          IndexRemove(table, key);
          r := Some(table[key]);
          backend := Indexed(table - {key}, deadlines - {Deadline(table[key].Expires(), key)});
      }
      contents := contents - {key};
    }

    /** `remove_expired`: how many went. */
    method RemoveExpired(now: int) returns (count: nat)
      requires Valid()
      modifies this
      ensures Valid() && contents == Live(old(contents), now) && count == |Expired(old(contents), now)|
      ensures count + |contents| == old(|contents|)
    {
      var removed := Sweep(now, None);
      return |removed|;
    }

    /** `remove_expired_entries`: at most `limit` of them, and all of them if fewer. */
    method RemoveExpiredEntries(now: int, limit: nat) returns (removed: seq<Pair>)
      requires Valid()
      modifies this
      ensures Valid() && Dropped(old(contents), contents, now, removed)
      ensures |removed| == AtMost(Some(limit), |Expired(old(contents), now)|)
      ensures |removed| < limit ==> contents == Live(old(contents), now)
    {
      removed := Sweep(now, Some(limit));
    }

    method Sweep(now: int, limit: Option<nat>) returns (removed: seq<Pair>)
      requires Valid()
      modifies this
      ensures Valid() && Dropped(old(contents), contents, now, removed)
      ensures More(limit, |removed|) ==> contents == Live(old(contents), now)
      ensures |removed| == AtMost(limit, |Expired(old(contents), now)|)
    {
      match backend {
        case Small(start) =>
          var list;
          ghost var kept;
          list, removed, kept := SweepList(start, contents, now, limit);
          backend, contents := Small(list), kept;
        case Indexed(start, index) =>
          var table, deadlines, examined;
          table, deadlines, removed, examined := SweepTable(start, index, now, limit);
          if More(limit, examined) { SweptTable(start, table, now, removed); }
          backend, contents := Indexed(table, deadlines), table;
      }
      DroppedCount(old(contents), contents, now, removed);
    }

    method OldestKey() returns (r: Option<Key>)
      requires Valid()
      modifies this
      ensures Valid() && contents == old(contents)
      ensures r.None? <==> contents == map[]
      ensures r.Some? ==> Oldest(contents, r.value)
    {
      match backend {
        case Small(list) =>
          r := OldestOfList(list, contents);
        case Indexed(table, index) =>
          var deadlines;
          r, deadlines := OldestOfTable(table, index);
          backend := Indexed(table, deadlines);
      }
    }
  }
}
