/**
  The depth-first merge of a configuration file and everything it includes
  (`Merger`, crates/dae-config/src/merger.rs).
*/
module Merger {
  import opened Bytes
  import opened Sections
  import opened IncludeTree

  datatype Outcome = Done | Circular | Duplicate | Failed

  /** Every file under `ps` can be read and fits what is left of the limits. */
  ghost predicate Mergeable(w: World, l: Ledger, ps: seq<Path>, depth: nat) {
    PreorderAll(w, ps, depth).Some? && AdmitsAll(w, l, PreorderAll(w, ps, depth).value)
  }

  ghost predicate MergeableOne(w: World, l: Ledger, p: Path, depth: nat) {
    Preorder(w, p, depth).Some? && AdmitsAll(w, l, Preorder(w, p, depth).value)
  }

  function Prepend(files: seq<Path>, rest: Option<seq<Path>>): Option<seq<Path>> {
    if rest.None? then None else Some(files + rest.value)
  }

  lemma MergeableStep(w: World, l: Ledger, ps: seq<Path>, depth: nat)
    requires ps != []
    ensures Mergeable(w, l, ps, depth) <==>
      && MergeableOne(w, l, ps[0], depth)
      && Mergeable(w, AddAll(w, l, Preorder(w, ps[0], depth).value), ps[1..], depth)
    ensures Preorder(w, ps[0], depth).Some? ==>
      PreorderAll(w, ps, depth) == Prepend(Preorder(w, ps[0], depth).value, PreorderAll(w, ps[1..], depth))
  {
    if Preorder(w, ps[0], depth).Some? && PreorderAll(w, ps[1..], depth).Some? {
      AddConcat(w, l, Preorder(w, ps[0], depth).value, PreorderAll(w, ps[1..], depth).value);
    }
  }

  /** A file is mergeable when it may be read and its children are mergeable after it. */
  lemma MergeableEntry(w: World, l: Ledger, p: Path, depth: nat)
    requires depth < MAX_DEPTH && Own(w, p).Some?
    ensures MergeableOne(w, l, p, depth) <==>
      && Admits(w, l, p)
      && Children(w, Own(w, p).value).Some?
      && Mergeable(w, Add(w, l, p), Children(w, Own(w, p).value).value, depth + 1)
    ensures Preorder(w, p, depth).Some? ==>
      var rest := PreorderAll(w, Children(w, Own(w, p).value).value, depth + 1).value;
      Preorder(w, p, depth).value == [p] + rest && AddAll(w, l, [p] + rest) == AddAll(w, Add(w, l, p), rest)
  {
    if Preorder(w, p, depth).Some? {
      var rest := PreorderAll(w, Children(w, Own(w, p).value).value, depth + 1).value;
      assert ([p] + rest)[1..] == rest;
    }
  }

  /** The maps after the tree of `entry`, made of `files`, has been merged. */
  ghost predicate MergedMaps(w: World, before: map<Path, SectionMap>, after: map<Path, SectionMap>,
                             entry: Path, father: Option<Path>, files: seq<Path>)
  {
    && after.Keys == before.Keys + (set p | p in files)
    && entry in after && Groups(after[entry], AllSections(w, files))
    && (forall p :: p in before && father != Some(p) ==> after[p] == before[p])
    && (forall f :: father == Some(f) && f in before ==> after[f] == Merge(before[f], after[entry]))
  }

  /** `entry` has been added to the maps with its own sections. */
  ghost predicate Recorded(w: World, before: map<Path, SectionMap>, after: map<Path, SectionMap>, entry: Path) {
    entry !in before && entry in after && after == before[entry := after[entry]] && Groups(after[entry], OwnSections(w, entry))
  }

  /* ----- where files were read ----- */

  /** The file `i` is at this place of the tree. */
  ghost predicate Leads(w: World, root: Path, at: Place, i: Id) {
    FileAt(w, root, at).Some? && w.id(FileAt(w, root, at).value) == i
  }

  ghost predicate AllLead(w: World, root: Path, foundAt: map<Id, Place>) {
    forall i :: i in foundAt ==> Leads(w, root, foundAt[i], i)
  }

  /** Nothing has been read at this place or below it. */
  ghost predicate Unread(foundAt: map<Id, Place>, at: Place) {
    forall i :: i in foundAt ==> !(at <= foundAt[i])
  }

  ghost predicate ChildrenUnread(foundAt: map<Id, Place>, at: Place, k: nat) {
    forall j: nat :: j >= k ==> Unread(foundAt, at + [j])
  }

  /** Whatever was read meanwhile is at this place or below it. */
  ghost predicate NewUnder(before: map<Id, Place>, after: map<Id, Place>, at: Place) {
    forall i :: i in after ==> (i in before && after[i] == before[i]) || at <= after[i]
  }

  lemma SidewaysApart(at: Place, j: nat, k: nat, p: Place)
    requires at + [k] <= p && j != k
    ensures !(at + [j] <= p)
  {
    assert p[|at|] == (at + [k])[|at|];
  }

  lemma NotBelow(at: Place, j: nat, p: Place)
    requires !(at <= p)
    ensures !(at + [j] <= p)
  {
    assert at <= at + [j];
  }

  lemma NextUnread(before: map<Id, Place>, after: map<Id, Place>, at: Place, k: nat)
    requires ChildrenUnread(before, at, k) && NewUnder(before, after, at + [k])
    ensures ChildrenUnread(after, at, k + 1)
  {
    forall j: nat | j >= k + 1 ensures Unread(after, at + [j]) {
      assert Unread(before, at + [j]);
      forall i | i in after ensures !(at + [j] <= after[i]) {
        if !(i in before && after[i] == before[i]) { SidewaysApart(at, j, k, after[i]); }
      }
    }
  }

  lemma NewUnderMore(before: map<Id, Place>, mid: map<Id, Place>, after: map<Id, Place>, at: Place, k: nat)
    requires NewUnder(before, mid, at) && NewUnder(mid, after, at + [k])
    ensures NewUnder(before, after, at)
  {
    forall i | i in after ensures (i in before && after[i] == before[i]) || at <= after[i] {
      if !(i in mid && after[i] == mid[i]) { assert at <= at + [k] <= after[i]; }
    }
  }

  lemma FirstUnread(before: map<Id, Place>, at: Place, i: Id)
    requires Unread(before, at)
    ensures ChildrenUnread(before[i := at], at, 0) && NewUnder(before, before[i := at], at)
  {
    var after := before[i := at];
    forall j: nat | j >= 0 ensures Unread(after, at + [j]) {
      forall k | k in after ensures !(at + [j] <= after[k]) {
        if k != i { NotBelow(at, j, before[k]); }
      }
    }
  }

  /** Two places hold the same file. */
  ghost predicate SameFile(w: World, root: Path, a: Place, b: Place) {
    FileAt(w, root, b).Some? && Leads(w, root, a, w.id(FileAt(w, root, b).value))
  }

  /** The file at this place is also at a place on the way to it. */
  ghost predicate CircularPlace(w: World, root: Path, at: Place) {
    exists i :: 0 <= i < |at| && SameFile(w, root, at[..i], at)
  }

  /** Two different places of the same file, the second not below the first. */
  ghost predicate DuplicatePlaces(w: World, root: Path, a: Place, b: Place) {
    a != b && SameFile(w, root, a, b) && !CircularPlace(w, root, b)
  }

  /** Why a merge stopped. */
  ghost predicate Blamed(w: World, root: Path, earlier: Place, blame: Place, r: Outcome) {
    && (r.Circular? ==> CircularPlace(w, root, blame))
    && (r.Duplicate? ==> DuplicatePlaces(w, root, earlier, blame))
  }

  /** An include walk that ends in a file already on it. */
  ghost predicate CircularWalk(w: World, root: Path, walk: seq<Path>) {
    Walk(w, root, walk) && w.id(walk[|walk| - 1]) in Ids(w, walk[..|walk| - 1])
  }

  lemma WalkSnoc(w: World, root: Path, walk: seq<Path>, p: Path)
    requires Walk(w, root, walk) && Includes(w, walk[|walk| - 1], p)
    ensures Walk(w, root, walk + [p])
  {
    var longer := walk + [p];
    forall i | 0 <= i < |longer| - 1 ensures Includes(w, longer[i], longer[i + 1]) {
      if i < |walk| - 1 { assert Includes(w, walk[i], walk[i + 1]); }
    }
  }

  /** The files on the way to a place form an include walk. */
  lemma {:induction false} PlaceWalks(w: World, root: Path, at: Place, p: Path) returns (chain: seq<Path>)
    requires FileAt(w, root, at) == Some(p)
    ensures Along(w, root, chain, at) && Walk(w, root, chain + [p])
    decreases |at|
  {
    chain := [];
    if at != [] {
      var init, k, q := PlaceInit(w, root, at, p);
      ChildIncluded(w, q, k, p);
      var shorter := PlaceWalks(w, root, init, q);
      WalkSnoc(w, root, shorter + [q], p);
      AlongSnoc(w, root, shorter, init, q, k);
      chain := shorter + [q];
    }
  }

  lemma CircularChain(w: World, chain: seq<Path>, p: Path, i: nat)
    requires i < |chain| && w.id(chain[i]) == w.id(p)
    ensures w.id(p) in Ids(w, (chain + [p])[..|chain|])
  {
    assert (chain + [p])[..|chain|] == chain && Ids(w, chain)[i] == w.id(p);
  }

  lemma CircularPlaceWalks(w: World, root: Path, at: Place) returns (walk: seq<Path>)
    requires CircularPlace(w, root, at)
    ensures CircularWalk(w, root, walk)
  {
    var i :| 0 <= i < |at| && SameFile(w, root, at[..i], at);
    var p := FileAt(w, root, at).value;
    var chain := PlaceWalks(w, root, at, p);
    CircularChain(w, chain, p, i);
    walk := chain + [p];
  }

  lemma BlameEntry(w: World, root: Path, foundAt: map<Id, Place>, chain: seq<Path>, entry: Path, at: Place)
    requires AllLead(w, root, foundAt) && Along(w, root, chain, at) && FileAt(w, root, at) == Some(entry)
    requires w.id(entry) in foundAt && Unread(foundAt, at)
    ensures Blamed(w, root, foundAt[w.id(entry)], at, if w.id(entry) in Ids(w, chain) then Circular else Duplicate)
  {
    if w.id(entry) in Ids(w, chain) {
      var i :| 0 <= i < |chain| && Ids(w, chain)[i] == w.id(entry);
      assert SameFile(w, root, at[..i], at);
    } else {
      assert foundAt[w.id(entry)] != at;
      forall i | 0 <= i < |at| ensures !SameFile(w, root, at[..i], at) {
        assert w.id(chain[i]) == Ids(w, chain)[i];
      }
    }
  }

  /** If these files can be listed at all, one of them repeats or was visited before. */
  ghost predicate Repeats(w: World, visited: set<Id>, files: Option<seq<Path>>) {
    files.Some? ==> !Distinct(w, visited, files.value)
  }

  lemma VisitedRepeats(w: World, visited: set<Id>, p: Path, depth: nat)
    requires w.id(p) in visited
    ensures Repeats(w, visited, Preorder(w, p, depth))
  {
    if Preorder(w, p, depth).Some? { assert Preorder(w, p, depth).value[0] == p; }
  }

  lemma ChildrenRepeat(w: World, visited: set<Id>, p: Path, depth: nat)
    requires depth < MAX_DEPTH && Own(w, p).Some? && Children(w, Own(w, p).value).Some?
    requires Repeats(w, visited + {w.id(p)}, PreorderAll(w, Children(w, Own(w, p).value).value, depth + 1))
    ensures Repeats(w, visited, Preorder(w, p, depth))
  {
    if Preorder(w, p, depth).Some? {
      var files := Preorder(w, p, depth).value;
      DistinctCons(w, visited, files);
      assert files[1..] == PreorderAll(w, Children(w, Own(w, p).value).value, depth + 1).value;
    }
  }

  lemma ChildRepeats(w: World, start: Ledger, now: Ledger, ps: seq<Path>, rest: seq<Path>, files: seq<Path>, depth: nat)
    requires Progress(w, start, now, ps, rest, files, depth) && rest != []
    requires Repeats(w, now.visited, Preorder(w, rest[0], depth))
    ensures Repeats(w, start.visited, PreorderAll(w, ps, depth))
  {
    if PreorderAll(w, ps, depth).Some? && Distinct(w, start.visited, PreorderAll(w, ps, depth).value) {
      AddAllVisited(w, start, files);
      DistinctConcat(w, start.visited, files, PreorderAll(w, rest, depth).value);
      DistinctConcat(w, now.visited, Preorder(w, rest[0], depth).value, PreorderAll(w, rest[1..], depth).value);
    }
  }

  /** The maps after some children of `entry`, whose trees are made of `files`, have been merged into it. */
  ghost predicate ChildrenMerged(w: World, before: map<Path, SectionMap>, after: map<Path, SectionMap>,
                                 entry: Path, sections: seq<Section>, files: seq<Path>)
  {
    && after.Keys == before.Keys + (set p | p in files)
    && entry in after && Groups(after[entry], sections + AllSections(w, files))
    && (forall p :: p in before && p != entry ==> after[p] == before[p])
  }

  lemma NoChildYet(w: World, maps: map<Path, SectionMap>, entry: Path, sections: seq<Section>)
    requires entry in maps && Groups(maps[entry], sections)
    ensures ChildrenMerged(w, maps, maps, entry, sections, [])
  {
    assert sections + [] == sections;
  }

  lemma FilesConcat(xs: seq<Path>, ys: seq<Path>)
    ensures (set p | p in xs + ys) == (set p | p in xs) + (set p | p in ys)
  {
  }

  lemma SectionsConcat(w: World, sections: seq<Section>, xs: seq<Path>, ys: seq<Path>)
    ensures sections + AllSections(w, xs + ys) == sections + AllSections(w, xs) + AllSections(w, ys)
  {
    AllSectionsConcat(w, xs, ys);
    SectionsRegroup(sections, AllSections(w, xs), AllSections(w, ys));
  }

  lemma ChildStep(w: World, before: map<Path, SectionMap>, mid: map<Path, SectionMap>, after: map<Path, SectionMap>,
                  entry: Path, child: Path, sections: seq<Section>, xs: seq<Path>, ys: seq<Path>)
    requires ChildrenMerged(w, before, mid, entry, sections, xs)
    requires MergedMaps(w, mid, after, child, Some(entry), ys)
    ensures ChildrenMerged(w, before, after, entry, sections, xs + ys)
  {
    SectionsConcat(w, sections, xs, ys);
    GroupsMerge(mid[entry], after[child], sections + AllSections(w, xs), AllSections(w, ys));
    FilesConcat(xs, ys);
  }

  lemma WholeTree(w: World, before: map<Path, SectionMap>, mid: map<Path, SectionMap>, after: map<Path, SectionMap>,
                  entry: Path, files: seq<Path>)
    requires Recorded(w, before, mid, entry)
    requires ChildrenMerged(w, mid, after, entry, OwnSections(w, entry), files)
    ensures MergedMaps(w, before, after, entry, None, [entry] + files)
  {
    assert ([entry] + files)[1..] == files;
    FilesConcat([entry], files);
  }

  lemma IntoFather(w: World, before: map<Path, SectionMap>, after: map<Path, SectionMap>, entry: Path, father: Path, files: seq<Path>)
    requires MergedMaps(w, before, after, entry, None, files) && father in before && father != entry
    ensures father in after && MergedMaps(w, before, after[father := Merge(before[father], after[entry])], entry, Some(father), files)
  {
  }

  class Merger {
    const world: World
    const root: Path
    var maps: map<Path, SectionMap>
    var visited: set<Id>
    var stack: seq<Id>
    var filesRead: nat
    var bytesRead: nat
    var itemsRead: nat

    /** Where each visited file was read; at a repetition, the place being read and the earlier one. */
    ghost var foundAt: map<Id, Place>
    ghost var blame: Place
    ghost var earlier: Place

    ghost function Read(): Ledger
      reads this
    {
      Ledger(visited, filesRead, bytesRead, itemsRead)
    }

    ghost predicate Valid()
      reads `maps, `visited, `foundAt
    {
      && (forall p :: p in maps ==> world.id(p) in visited)
      && foundAt.Keys == visited
      && AllLead(world, root, foundAt)
    }

    /** The stack is the chain of ancestors of the file about to be read. */
    ghost predicate At(chain: seq<Path>, entry: Path, at: Place)
      reads `maps, `visited, `foundAt, `stack
    {
      && Valid() && FileAt(world, root, at) == Some(entry) && Along(world, root, chain, at)
      && stack == Ids(world, chain) && Unread(foundAt, at)
    }

    /** The file on top of the stack is the one whose children are being merged. */
    ghost predicate Inside(chain: seq<Path>, entry: Path, at: Place)
      reads `maps, `visited, `foundAt, `stack
    {
      && Valid() && FileAt(world, root, at) == Some(entry) && Along(world, root, chain, at)
      && stack == Ids(world, chain + [entry])
    }

    constructor (world: World, root: Path)
      ensures this.world == world && this.root == root
      ensures Valid() && Read() == Ledger({}, 0, 0, 0) && stack == [] && maps == map[] && foundAt == map[]
    {
      this.world := world;
      this.root := root;
      maps, visited, stack := map[], {}, [];
      filesRead, bytesRead, itemsRead := 0, 0, 0;
      foundAt, blame, earlier := map[], [], [];
    }

    /** Open, measure and parse a file, charging it to the limits. */
    method Charge(entry: Path) returns (r: Option<seq<Section>>)
      requires world.id(entry) !in visited
      modifies `filesRead, `bytesRead, `itemsRead
      ensures r.Some? <==> Own(world, entry).Some? && Admits(world, old(Read()), entry)
      ensures r.Some? ==> r == Own(world, entry)
      ensures r.Some? ==> Add(world, old(Read()), entry) == Ledger(visited + {world.id(entry)}, filesRead, bytesRead, itemsRead)
    {
      var file := world.file(entry);
      if file.Unreadable? { return None; }
      if file.length > MAX_FILE_BYTES { return None; }
      bytesRead := bytesRead + file.length;
      if bytesRead > MAX_TOTAL_BYTES { return None; }
      if file.parsed.None? { return None; }
      itemsRead := itemsRead + CountNodes(file.parsed.value);
      if itemsRead > MAX_ITEMS { return None; }
      filesRead := filesRead + 1;
      if filesRead > MAX_FILES { return None; }
      return file.parsed;
    }

    method Record(entry: Path, sections: seq<Section>, ghost chain: seq<Path>, ghost at: Place)
      requires At(chain, entry, at) && world.id(entry) !in visited && sections == OwnSections(world, entry)
      modifies `visited, `stack, `maps, `foundAt
      ensures Inside(chain, entry, at) && visited == old(visited) + {world.id(entry)}
      ensures foundAt == old(foundAt)[world.id(entry) := at] && Recorded(world, old(maps), maps, entry)
    {
      var sectionMap := ConvertSectionsToMap(sections);
      visited := visited + {world.id(entry)};
      stack := stack + [world.id(entry)];
      maps := maps[entry := sectionMap];
      foundAt := foundAt[world.id(entry) := at];
      assert Leads(world, root, at, world.id(entry));
    }

    /** A file visited before: circular if it is an ancestor, otherwise a duplicate. */
    method Refuse(entry: Path, ghost chain: seq<Path>, ghost at: Place) returns (r: Outcome)
      requires At(chain, entry, at) && world.id(entry) in visited
      modifies `blame, `earlier
      ensures r == if world.id(entry) in stack then Circular else Duplicate
      ensures Blamed(world, root, earlier, blame, r)
    {
      blame, earlier := at, foundAt[world.id(entry)];
      BlameEntry(world, root, foundAt, chain, entry, at);
      return if world.id(entry) in stack then Circular else Duplicate;
    }

    /** A file not visited before: read if the limits allow it. */
    method Accept(entry: Path, ghost chain: seq<Path>, ghost at: Place) returns (r: Outcome)
      requires At(chain, entry, at) && world.id(entry) !in visited
      modifies this
      ensures r == if Own(world, entry).Some? && Admits(world, old(Read()), entry) then Done else Failed
      ensures r.Done? ==> Inside(chain, entry, at) && Read() == Add(world, old(Read()), entry)
      ensures r.Done? ==> foundAt == old(foundAt)[world.id(entry) := at] && Recorded(world, old(maps), maps, entry)
    {
      var sections := Charge(entry);
      if sections.None? { return Failed; }
      Record(entry, sections.value, chain, at);
      return Done;
    }

    method ReadEntry(entry: Path, ghost chain: seq<Path>, ghost at: Place) returns (r: Outcome)
      requires At(chain, entry, at)
      modifies this
      ensures r.Done? <==> Own(world, entry).Some? && Admits(world, old(Read()), entry)
      ensures r.Done? ==> Inside(chain, entry, at) && Read() == Add(world, old(Read()), entry)
      ensures r.Done? ==> foundAt == old(foundAt)[world.id(entry) := at] && Recorded(world, old(maps), maps, entry)
      ensures r.Circular? <==> world.id(entry) in old(visited) && world.id(entry) in old(stack)
      ensures r.Duplicate? <==> world.id(entry) in old(visited) && world.id(entry) !in old(stack)
      ensures Blamed(world, root, earlier, blame, r)
    {
      if world.id(entry) in visited {
        r := Refuse(entry, chain, at);
        return;
      }
      r := Accept(entry, chain, at);
    }

    /** The include items of a file, expanded and sorted. */
    method ChildEntries(items: seq<Item>) returns (r: Option<seq<Path>>)
      ensures r == match Expanded(world, items) case None => None case Some(files) => Some(SortPaths(files))
    {
      for i := 0 to |items|
        invariant forall j :: 0 <= j < i ==> items[j].Param?
      {
        if !items[i].Param? {
          ExpandedPart(world, items, i);
          return None;
        }
      }
      var out: seq<Path> := [];
      assert items[0..] == items;
      assert Expanded(world, items).Some? ==> [] + Expanded(world, items).value == Expanded(world, items).value;
      for i := 0 to |items|
        invariant Expanded(world, items) == Prepend(out, Expanded(world, items[i..]))
      {
        var files := world.expand(items[i]);
        if files.None? { return None; }
        assert items[i..][1..] == items[i + 1..];
        var rest := Expanded(world, items[i + 1..]);
        if rest.Some? { assert out + (files.value + rest.value) == (out + files.value) + rest.value; }
        out := out + files.value;
      }
      assert out + [] == out;
      return Some(SortPaths(out));
    }

    /** The end of a turn of `DfsMerge`: merge into the father and leave the stack. */
    method Leave(entry: Path, father: Option<Path>, ghost before: map<Path, SectionMap>, ghost files: seq<Path>,
                 ghost chain: seq<Path>)
      requires Valid() && stack == Ids(world, chain + [entry]) && MergedMaps(world, before, maps, entry, None, files)
      requires father.Some? ==> father.value in before && father.value != entry
      modifies `maps, `stack
      ensures Valid() && stack == Ids(world, chain) && MergedMaps(world, before, maps, entry, father, files)
    {
      if father.Some? {
        IntoFather(world, before, maps, entry, father.value, files);
        var merged := MergeInto(maps[father.value], maps[entry]);
        maps := maps[father.value := merged];
      }
      IdsInit(world, chain, entry);
      stack := stack[..|stack| - 1];
    }

    method DfsMerge(entry: Path, father: Option<Path>, depth: nat, ghost chain: seq<Path>, ghost at: Place) returns (r: Outcome)
      requires At(chain, entry, at) && depth <= MAX_DEPTH
      requires father.Some? ==> father.value in maps
      modifies this
      ensures r.Done? <==> MergeableOne(world, old(Read()), entry, depth)
      ensures r.Done? ==>
        var files := Preorder(world, entry, depth).value;
        && Valid() && stack == old(stack) && Read() == AddAll(world, old(Read()), files)
        && MergedMaps(world, old(maps), maps, entry, father, files) && NewUnder(old(foundAt), foundAt, at)
      ensures Blamed(world, root, earlier, blame, r)
      ensures r.Circular? || r.Duplicate? ==> Repeats(world, old(visited), Preorder(world, entry, depth))
      decreases MAX_DEPTH - depth, 2
    {
      if depth >= MAX_DEPTH { return Failed; }
      r := MergeTree(entry, depth, chain, at);
      if !r.Done? { return; }
      Leave(entry, father, old(maps), Preorder(world, entry, depth).value, chain);
    }

    /** Read a file and merge its children into it. */
    method MergeTree(entry: Path, depth: nat, ghost chain: seq<Path>, ghost at: Place) returns (r: Outcome)
      requires At(chain, entry, at) && depth < MAX_DEPTH
      modifies this
      ensures r.Done? <==> MergeableOne(world, old(Read()), entry, depth)
      ensures r.Done? ==>
        var files := Preorder(world, entry, depth).value;
        && Inside(chain, entry, at) && Read() == AddAll(world, old(Read()), files)
        && entry !in old(maps) && MergedMaps(world, old(maps), maps, entry, None, files) && NewUnder(old(foundAt), foundAt, at)
      ensures Blamed(world, root, earlier, blame, r)
      ensures r.Circular? || r.Duplicate? ==> Repeats(world, old(visited), Preorder(world, entry, depth))
      decreases MAX_DEPTH - depth, 1
    {
      r := ReadEntry(entry, chain, at);
      if !r.Done? {
        EntryRefused(world, old(Read()), entry, depth);
        if world.id(entry) in old(visited) { VisitedRepeats(world, old(visited), entry, depth); }
        return;
      }
      MergeableEntry(world, old(Read()), entry, depth);
      FirstUnread(old(foundAt), at, world.id(entry));
      ghost var mid := maps;
      r := MergeIncludes(entry, depth, chain, at);
      if r.Circular? || r.Duplicate? { ChildrenRepeat(world, old(visited), entry, depth); }
      if !r.Done? { return; }
      WholeTree(world, old(maps), mid, maps, entry, PreorderAll(world, Children(world, Own(world, entry).value).value, depth + 1).value);
    }

    /** Find the children of a file just read and merge them into it. */
    method MergeIncludes(entry: Path, depth: nat, ghost chain: seq<Path>, ghost at: Place) returns (r: Outcome)
      requires Inside(chain, entry, at) && ChildrenUnread(foundAt, at, 0)
      requires depth < MAX_DEPTH && Own(world, entry).Some?
      requires entry in maps && Groups(maps[entry], Own(world, entry).value)
      modifies this
      ensures r.Done? <==>
        var children := Children(world, Own(world, entry).value);
        children.Some? && Mergeable(world, old(Read()), children.value, depth + 1)
      ensures r.Done? ==>
        var files := PreorderAll(world, Children(world, Own(world, entry).value).value, depth + 1).value;
        && Inside(chain, entry, at) && Read() == AddAll(world, old(Read()), files)
        && ChildrenMerged(world, old(maps), maps, entry, Own(world, entry).value, files) && NewUnder(old(foundAt), foundAt, at)
      ensures Blamed(world, root, earlier, blame, r)
      ensures r.Circular? || r.Duplicate? ==>
        var children := Children(world, Own(world, entry).value);
        children.Some? && Repeats(world, old(visited), PreorderAll(world, children.value, depth + 1))
      decreases MAX_DEPTH - depth, 0, 2
    {
      GetNamed(maps[entry], Own(world, entry).value, "include");
      var children := ChildEntries(Get(maps[entry], "include"));
      if children.None? { return Failed; }
      r := MergeChildren(entry, children.value, depth, Own(world, entry).value, chain, at);
    }

    method MergeChild(entry: Path, child: Path, depth: nat, ghost k: nat, ghost chain: seq<Path>, ghost at: Place) returns (r: Outcome)
      requires Inside(chain, entry, at) && Unread(foundAt, at + [k])
      requires depth < MAX_DEPTH && Child(world, entry, k) == Some(child) && entry in maps
      modifies this
      ensures r.Done? <==> MergeableOne(world, old(Read()), child, depth + 1)
      ensures r.Done? ==>
        var files := Preorder(world, child, depth + 1).value;
        && Inside(chain, entry, at) && Read() == AddAll(world, old(Read()), files)
        && MergedMaps(world, old(maps), maps, child, Some(entry), files) && NewUnder(old(foundAt), foundAt, at + [k])
      ensures Blamed(world, root, earlier, blame, r)
      ensures r.Circular? || r.Duplicate? ==> Repeats(world, old(visited), Preorder(world, child, depth + 1))
      decreases MAX_DEPTH - depth, 0, 0
    {
      FileAtSnoc(world, root, at, entry, k);
      AlongSnoc(world, root, chain, at, entry, k);
      r := DfsMerge(child, Some(entry), depth + 1, chain + [entry], at + [k]);
    }

    method MergeChildren(entry: Path, children: seq<Path>, depth: nat, ghost sections: seq<Section>,
                         ghost chain: seq<Path>, ghost at: Place)
      returns (r: Outcome)
      requires Inside(chain, entry, at) && ChildrenUnread(foundAt, at, 0)
      requires depth < MAX_DEPTH && Own(world, entry).Some? && Children(world, Own(world, entry).value) == Some(children)
      requires entry in maps && Groups(maps[entry], sections)
      modifies this
      ensures r.Done? <==> Mergeable(world, old(Read()), children, depth + 1)
      ensures r.Done? ==>
        var files := PreorderAll(world, children, depth + 1).value;
        && Inside(chain, entry, at) && Read() == AddAll(world, old(Read()), files)
        && ChildrenMerged(world, old(maps), maps, entry, sections, files) && NewUnder(old(foundAt), foundAt, at)
      ensures Blamed(world, root, earlier, blame, r)
      ensures r.Circular? || r.Duplicate? ==> Repeats(world, old(visited), PreorderAll(world, children, depth + 1))
      decreases MAX_DEPTH - depth, 0, 1
    {
      ghost var files: seq<Path> := [];
      NoChildYet(world, maps, entry, sections);
      ProgressStart(world, Read(), children, depth + 1);
      for i := 0 to |children|
        invariant Inside(chain, entry, at)
        invariant ChildrenUnread(foundAt, at, i) && NewUnder(old(foundAt), foundAt, at)
        invariant ChildrenMerged(world, old(maps), maps, entry, sections, files)
        invariant Progress(world, old(Read()), Read(), children, children[i..], files, depth + 1)
      {
        ghost var mid, read, found := maps, Read(), foundAt;
        r := MergeChild(entry, children[i], depth, i, chain, at);
        if r.Circular? || r.Duplicate? { ChildRepeats(world, old(Read()), read, children, children[i..], files, depth + 1); }
        ProgressStep(world, old(Read()), read, children, children[i..], files, depth + 1);
        if !r.Done? { return; }
        NextUnread(found, foundAt, at, i);
        NewUnderMore(old(foundAt), found, foundAt, at, i);
        ghost var more := Preorder(world, children[i], depth + 1).value;
        ChildStep(world, old(maps), mid, maps, entry, children[i], sections, files, more);
        assert children[i..][1..] == children[i + 1..];
        files := files + more;
      }
      assert files + [] == files;
      return Done;
    }
  }

  /** Where the loop over the children stands: `files` have been read, the trees of `rest` remain. */
  ghost predicate Progress(w: World, start: Ledger, now: Ledger, ps: seq<Path>, rest: seq<Path>, files: seq<Path>, depth: nat) {
    && now == AddAll(w, start, files)
    && (Mergeable(w, start, ps, depth) <==> Mergeable(w, now, rest, depth))
    && PreorderAll(w, ps, depth) == Prepend(files, PreorderAll(w, rest, depth))
  }

  lemma ProgressStart(w: World, l: Ledger, ps: seq<Path>, depth: nat)
    ensures Progress(w, l, l, ps, ps[0..], [], depth)
  {
    assert ps[0..] == ps;
    if PreorderAll(w, ps, depth).Some? { assert [] + PreorderAll(w, ps, depth).value == PreorderAll(w, ps, depth).value; }
  }

  lemma ProgressStep(w: World, start: Ledger, now: Ledger, ps: seq<Path>, rest: seq<Path>, files: seq<Path>, depth: nat)
    requires Progress(w, start, now, ps, rest, files, depth) && rest != []
    ensures !MergeableOne(w, now, rest[0], depth) ==> !Mergeable(w, start, ps, depth)
    ensures MergeableOne(w, now, rest[0], depth) ==>
      var more := Preorder(w, rest[0], depth).value;
      Progress(w, start, AddAll(w, now, more), ps, rest[1..], files + more, depth)
  {
    MergeableStep(w, now, rest, depth);
    if MergeableOne(w, now, rest[0], depth) {
      var more := Preorder(w, rest[0], depth).value;
      AddConcat(w, start, files, more);
      PrependConcat(files, more, PreorderAll(w, rest[1..], depth));
    }
  }

  lemma IdsInit(w: World, chain: seq<Path>, entry: Path)
    ensures Ids(w, chain + [entry])[..|Ids(w, chain + [entry])| - 1] == Ids(w, chain)
  {
  }

  lemma EntryRefused(w: World, l: Ledger, p: Path, depth: nat)
    requires depth < MAX_DEPTH && !(Own(w, p).Some? && Admits(w, l, p))
    ensures !MergeableOne(w, l, p, depth)
  {
    if Own(w, p).Some? { MergeableEntry(w, l, p, depth); }
  }

  lemma PrependConcat(x: seq<Path>, y: seq<Path>, rest: Option<seq<Path>>)
    ensures Prepend(x, Prepend(y, rest)) == Prepend(x + y, rest)
  {
    if rest.Some? { assert x + (y + rest.value) == x + y + rest.value; }
  }

  lemma {:induction false} ExpandedPart(w: World, items: seq<Item>, i: nat)
    requires i < |items| && !items[i].Param?
    ensures Expanded(w, items).None?
    decreases i
  {
    if i > 0 && Expanded(w, items).Some? { ExpandedPart(w, items[1..], i - 1); }
  }

  const NOTHING_READ := Ledger({}, 0, 0, 0)

  /**
    `merge_config_file`.  It succeeds exactly when the include tree can be read, no
    file occurs in it twice, and its totals are within the limits; the result is the
    sections of the files in preorder, grouped by name.
  */
  method MergeConfigFile(w: World, entry: Path) returns (r: Outcome, sections: SectionMap, entries: set<Path>)
    ensures r.Done? <==>
      && Preorder(w, entry, 0).Some?
      && var files := Preorder(w, entry, 0).value;
      && Distinct(w, {}, files) && |files| <= MAX_FILES
      && TotalLength(w, files) <= MAX_TOTAL_BYTES && CountNodes(AllSections(w, files)) <= MAX_ITEMS
    ensures r.Done? ==>
      var files := Preorder(w, entry, 0).value;
      sections == Grouped(AllSections(w, files)) && entries == set p | p in files
    ensures r.Circular? ==> exists at :: CircularPlace(w, entry, at)
    ensures r.Circular? ==> exists walk :: CircularWalk(w, entry, walk)
    ensures r.Duplicate? ==> exists a, b :: DuplicatePlaces(w, entry, a, b)
    ensures r.Circular? || r.Duplicate? ==> Repeats(w, {}, Preorder(w, entry, 0))
  {
    var merger := new Merger(w, entry);
    sections, entries := map[], {};
    r := merger.DfsMerge(entry, None, 0, [], []);
    if Preorder(w, entry, 0).Some? { LimitsOnTotals(w, NOTHING_READ, Preorder(w, entry, 0).value); }
    if r.Done? {
      sections, entries := merger.maps[entry], merger.maps.Keys;
      GroupsUnique(sections, Grouped(AllSections(w, Preorder(w, entry, 0).value)), AllSections(w, Preorder(w, entry, 0).value));
    } else if r.Circular? {
      assert CircularPlace(w, entry, merger.blame);
      ghost var walk := CircularPlaceWalks(w, entry, merger.blame);
    } else if r.Duplicate? {
      assert DuplicatePlaces(w, entry, merger.earlier, merger.blame);
    }
  }

  /* ----- circular includes ----- */

  /** The tree of a child is a stretch of the tree it belongs to. */
  lemma {:induction false} ChildSlice(w: World, ps: seq<Path>, depth: nat, c: Path) returns (a: seq<Path>, b: seq<Path>)
    requires PreorderAll(w, ps, depth).Some? && c in ps
    ensures Preorder(w, c, depth).Some? && PreorderAll(w, ps, depth).value == a + Preorder(w, c, depth).value + b
    decreases ps
  {
    if ps[0] == c {
      a, b := [], PreorderAll(w, ps[1..], depth).value;
    } else {
      a, b := ChildSlice(w, ps[1..], depth, c);
      Shift(Preorder(w, ps[0], depth).value, a, Preorder(w, c, depth).value, b);
      a := Preorder(w, ps[0], depth).value + a;
    }
  }

  lemma WalkFrom(w: World, root: Path, walk: seq<Path>, k: nat)
    requires Walk(w, root, walk) && k < |walk|
    ensures Walk(w, walk[k], walk[k..]) && Walk(w, root, walk[..k + 1])
  {
    var tail := walk[k..];
    forall i | 0 <= i < |tail| - 1 ensures Includes(w, tail[i], tail[i + 1]) {
      assert Includes(w, walk[k + i], walk[k + i + 1]);
    }
  }

  /** `files` holds, after `a`, the tree of `p` read at some depth. */
  ghost predicate Holds(w: World, files: seq<Path>, a: seq<Path>, p: Path, sub: seq<Path>, b: seq<Path>, depth: nat) {
    Preorder(w, p, depth) == Some(sub) && files == a + sub + b
  }

  lemma StepSlice(w: World, p: Path, depth: nat, child: Path) returns (a: seq<Path>, sub: seq<Path>, b: seq<Path>)
    requires Preorder(w, p, depth).Some? && Includes(w, p, child)
    ensures Holds(w, Preorder(w, p, depth).value, a, child, sub, b, depth + 1) && a != [] && a[0] == p
  {
    var children, all := TreeOf(w, p, depth);
    a, b := ChildSlice(w, children, depth + 1, child);
    sub := Preorder(w, child, depth + 1).value;
    Shift([p], a, sub, b);
    a := [p] + a;
  }

  lemma TreeOf(w: World, p: Path, depth: nat) returns (children: seq<Path>, all: seq<Path>)
    requires Preorder(w, p, depth).Some?
    ensures Own(w, p).Some? && Children(w, Own(w, p).value) == Some(children)
    ensures PreorderAll(w, children, depth + 1) == Some(all) && Preorder(w, p, depth) == Some([p] + all)
  {
    children := Children(w, Own(w, p).value).value;
    all := PreorderAll(w, children, depth + 1).value;
  }

  lemma Shift(x: seq<Path>, a: seq<Path>, sub: seq<Path>, b: seq<Path>)
    ensures x + (a + sub + b) == (x + a) + sub + b
  {
  }

  lemma Nested(a1: seq<Path>, a2: seq<Path>, x: seq<Path>, b2: seq<Path>, b1: seq<Path>)
    ensures a1 + (a2 + x + b2) + b1 == (a1 + a2) + x + (b2 + b1)
  {
  }

  lemma HoldsInside(w: World, files: seq<Path>, a1: seq<Path>, p: Path, sub1: seq<Path>, b1: seq<Path>, d1: nat,
                    a2: seq<Path>, q: Path, sub2: seq<Path>, b2: seq<Path>, d2: nat)
    requires Holds(w, files, a1, p, sub1, b1, d1) && Holds(w, sub1, a2, q, sub2, b2, d2)
    ensures Holds(w, files, a1 + a2, q, sub2, b2 + b1, d2)
  {
    Nested(a1, a2, sub2, b2, b1);
  }

  /** The tree of the last file of a walk is a stretch of the tree of the first. */
  lemma {:induction false} WalkSlice(w: World, p: Path, depth: nat, walk: seq<Path>)
    returns (a: seq<Path>, sub: seq<Path>, b: seq<Path>, d: nat)
    requires Preorder(w, p, depth).Some? && Walk(w, p, walk)
    ensures Holds(w, Preorder(w, p, depth).value, a, walk[|walk| - 1], sub, b, d) && d == depth + |walk| - 1
    ensures |walk| > 1 ==> a != [] && a[0] == p
    decreases walk
  {
    if |walk| == 1 {
      a, sub, b, d := [], Preorder(w, p, depth).value, [], depth;
      assert [] + sub + [] == sub;
    } else {
      assert Includes(w, walk[0], walk[1]);
      WalkFrom(w, p, walk, 1);
      var a1, sub1, b1 := StepSlice(w, p, depth, walk[1]);
      var a2, sub2, b2, d2 := WalkSlice(w, walk[1], depth + 1, walk[1..]);
      HoldsInside(w, Preorder(w, p, depth).value, a1, walk[1], sub1, b1, depth + 1, a2, walk[|walk| - 1], sub2, b2, d2);
      a, sub, b, d := a1 + a2, sub2, b2 + b1, d2;
    }
  }

  lemma Repeated(w: World, files: seq<Path>, a: seq<Path>, b: seq<Path>, c: seq<Path>, d: seq<Path>, inner: seq<Path>)
    requires files == a + (c + inner + d) + b && c != [] && inner != [] && w.id(c[0]) == w.id(inner[0])
    ensures !Distinct(w, {}, files)
  {
    assert files[|a|] == c[0] && files[|a| + |c|] == inner[0];
  }

  lemma RepeatedAt(w: World, walk: seq<Path>, last: nat) returns (k: nat)
    requires last < |walk| && w.id(walk[last]) in Ids(w, walk[..last])
    ensures k < last && w.id(walk[k]) == w.id(walk[last])
  {
    k :| 0 <= k < last && Ids(w, walk[..last])[k] == w.id(walk[last]);
  }

  lemma FirstOfTree(w: World, p: Path, depth: nat)
    requires Preorder(w, p, depth).Some?
    ensures Preorder(w, p, depth).value != [] && Preorder(w, p, depth).value[0] == p
  {
  }

  lemma TwiceInTree(w: World, root: Path, there: seq<Path>, back: seq<Path>)
    requires Preorder(w, root, 0).Some? && Walk(w, root, there) && |back| > 1 && Walk(w, there[|there| - 1], back)
    requires w.id(back[0]) == w.id(back[|back| - 1])
    ensures !Distinct(w, {}, Preorder(w, root, 0).value)
  {
    var a, sub, b, depth := WalkSlice(w, root, 0, there);
    var c, inner, d, deeper := WalkSlice(w, back[0], depth, back);
    FirstOfTree(w, back[|back| - 1], deeper);
    Repeated(w, Preorder(w, root, 0).value, a, b, c, d, inner);
  }

  lemma SplitWalk(w: World, root: Path, walk: seq<Path>, k: nat) returns (there: seq<Path>, back: seq<Path>)
    requires Walk(w, root, walk) && k < |walk| - 1
    ensures Walk(w, root, there) && Walk(w, there[|there| - 1], back) && |back| > 1
    ensures back[0] == walk[k] && back[|back| - 1] == walk[|walk| - 1]
  {
    WalkFrom(w, root, walk, k);
    there, back := walk[..k + 1], walk[k..];
  }

  /** No file that includes itself, directly or through others, is ever merged. */
  lemma CircularNeverMerges(w: World, root: Path, walk: seq<Path>)
    requires CircularWalk(w, root, walk)
    ensures Repeats(w, {}, Preorder(w, root, 0))
  {
    var k := RepeatedAt(w, walk, |walk| - 1);
    var there, back := SplitWalk(w, root, walk, k);
    if Preorder(w, root, 0).Some? { TwiceInTree(w, root, there, back); }
  }

  /** Paths to the same file read the same contents. */
  ghost predicate SameFiles(w: World) {
    forall p, q :: w.id(p) == w.id(q) ==> w.file(p) == w.file(q)
  }

  lemma WalkFromSame(w: World, cycle: seq<Path>, q: Path)
    requires SameFiles(w) && |cycle| > 1 && Walk(w, cycle[0], cycle) && w.id(q) == w.id(cycle[0])
    ensures Walk(w, q, [q] + cycle[1..])
  {
    var walk := [q] + cycle[1..];
    forall i | 0 <= i < |walk| - 1 ensures Includes(w, walk[i], walk[i + 1]) {
      assert Includes(w, cycle[i], cycle[i + 1]);
      if i == 0 { assert w.file(q) == w.file(cycle[0]); }
    }
  }

  /** The tree of a file on a cycle cannot be listed at any depth: it would go on below itself. */
  lemma {:induction false} CycleNeverListed(w: World, cycle: seq<Path>, q: Path, depth: nat)
    requires SameFiles(w) && |cycle| > 1 && Walk(w, cycle[0], cycle)
    requires w.id(cycle[|cycle| - 1]) == w.id(cycle[0]) == w.id(q)
    ensures Preorder(w, q, depth).None?
    decreases MAX_DEPTH - depth
  {
    if Preorder(w, q, depth).Some? {
      WalkFromSame(w, cycle, q);
      var a, sub, b, d := WalkSlice(w, q, depth, [q] + cycle[1..]);
      CycleNeverListed(w, cycle, cycle[|cycle| - 1], d);
    }
  }

  /** Where paths to the same file read the same contents, a circular include runs into the depth limit. */
  lemma CircularIsTooDeep(w: World, root: Path, walk: seq<Path>)
    requires SameFiles(w) && CircularWalk(w, root, walk)
    ensures Preorder(w, root, 0).None?
  {
    var k := RepeatedAt(w, walk, |walk| - 1);
    var there, back := SplitWalk(w, root, walk, k);
    if Preorder(w, root, 0).Some? {
      var a, sub, b, d := WalkSlice(w, root, 0, there);
      CycleNeverListed(w, back, back[0], d);
    }
  }

  /* ----- exactly the reachable files ----- */

  lemma WalkCons(w: World, p: Path, child: Path, walk: seq<Path>)
    requires Includes(w, p, child) && Walk(w, child, walk)
    ensures Walk(w, p, [p] + walk)
  {
    var longer := [p] + walk;
    forall i | 0 <= i < |longer| - 1 ensures Includes(w, longer[i], longer[i + 1]) {
      if i > 0 { assert Includes(w, walk[i - 1], walk[i - 1 + 1]); }
    }
  }

  /** Every file of the tree is at the end of an include walk from its root. */
  lemma {:induction false} TreeIsReached(w: World, p: Path, depth: nat, q: Path) returns (walk: seq<Path>)
    requires Preorder(w, p, depth).Some? && q in Preorder(w, p, depth).value
    ensures Walk(w, p, walk) && walk[|walk| - 1] == q
    decreases MAX_DEPTH - depth, 0
  {
    if q == p {
      walk := [p];
    } else {
      var children, all := TreeOf(w, p, depth);
      var child;
      child, walk := ForestIsReached(w, children, depth + 1, q);
      WalkCons(w, p, child, walk);
      walk := [p] + walk;
    }
  }

  lemma {:induction false} ForestIsReached(w: World, ps: seq<Path>, depth: nat, q: Path) returns (child: Path, walk: seq<Path>)
    requires PreorderAll(w, ps, depth).Some? && q in PreorderAll(w, ps, depth).value
    ensures child in ps && Walk(w, child, walk) && walk[|walk| - 1] == q
    decreases MAX_DEPTH - depth, 1 + |ps|
  {
    if q in Preorder(w, ps[0], depth).value {
      child := ps[0];
      walk := TreeIsReached(w, child, depth, q);
    } else {
      child, walk := ForestIsReached(w, ps[1..], depth, q);
    }
  }

  ghost predicate Reaches(w: World, root: Path, q: Path) {
    exists walk :: Walk(w, root, walk) && walk[|walk| - 1] == q
  }

  /** A tree that can be read in full holds exactly the files reachable from its root. */
  lemma ReadIsReachable(w: World, root: Path, q: Path)
    requires Preorder(w, root, 0).Some?
    ensures q in Preorder(w, root, 0).value <==> Reaches(w, root, q)
  {
    if q in Preorder(w, root, 0).value {
      var walk := TreeIsReached(w, root, 0, q);
    }
    if Reaches(w, root, q) {
      var walk :| Walk(w, root, walk) && walk[|walk| - 1] == q;
      var a, sub, b, d := WalkSlice(w, root, 0, walk);
      FirstOfTree(w, q, d);
      assert (a + sub + b)[|a|] == q;
    }
  }
}
