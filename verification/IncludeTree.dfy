/**
  What a configuration merge is meant to read: the include tree of the entry file in
  preorder, and the limits the files in it have to stay within
  (crates/dae-config/src/merger.rs).  The file system is a parameter.
*/
module IncludeTree {
  import opened Bytes
  import opened Sections

  const MAX_DEPTH := 128
  const MAX_FILES := 4096
  const MAX_FILE_BYTES := 8 * 1024 * 1024
  const MAX_TOTAL_BYTES := 32 * 1024 * 1024
  const MAX_ITEMS := 512 * 1024

  /** Paths are numbered in their sort order. */
  type Path = nat

  /** Canonical paths: two paths with the same one are the same file. */
  type Id = nat

  /** A file that cannot be opened safely, or its length and its sections if it parses. */
  datatype File = Unreadable | File(length: nat, parsed: Option<seq<Section>>)

  /** `expand` lists the files that an include parameter stands for; None when that fails. */
  datatype World = World(id: Path -> Id, file: Path -> File, expand: Item -> Option<seq<Path>>)

  /** The sections of a file that is small enough and parses. */
  function Own(w: World, p: Path): Option<seq<Section>> {
    match w.file(p)
    case Unreadable => None
    case File(length, parsed) => if length > MAX_FILE_BYTES then None else parsed
  }

  function OwnSections(w: World, p: Path): seq<Section> {
    if Own(w, p).Some? then Own(w, p).value else []
  }

  predicate Sorted(s: seq<Path>) {
    forall i, j :: 0 <= i < j < |s| ==> s[i] <= s[j]
  }

  function Insert(p: Path, s: seq<Path>): (r: seq<Path>)
    ensures multiset(r) == multiset(s) + multiset{p}
  {
    if s == [] then [p]
    else if p <= s[0] then [p] + s
    else
      assert s == [s[0]] + s[1..];
      [s[0]] + Insert(p, s[1..])
  }

  lemma SameElements(p: Path, s: seq<Path>, r: seq<Path>, i: nat)
    requires multiset(r) == multiset(s) + multiset{p} && i < |r|
    ensures r[i] == p || r[i] in s
  {
    assert r[i] in multiset(r);
    assert r[i] == p || r[i] in multiset(s);
  }

  lemma {:induction false} InsertSorted(p: Path, s: seq<Path>)
    requires Sorted(s)
    ensures Sorted(Insert(p, s))
    decreases |s|
  {
    if s != [] && p > s[0] {
      InsertSorted(p, s[1..]);
      var rest := Insert(p, s[1..]);
      forall i | 0 <= i < |rest| ensures s[0] <= rest[i] { SameElements(p, s[1..], rest, i); }
    }
  }


  /** `Vec::sort`: the same paths, in order. */
  function SortPaths(s: seq<Path>): (r: seq<Path>)
    ensures Sorted(r) && multiset(r) == multiset(s)
  {
    if s == [] then []
    else
      assert s == [s[0]] + s[1..];
      InsertSorted(s[0], SortPaths(s[1..]));
      Insert(s[0], SortPaths(s[1..]))
  }

  /** The files that a list of include items stands for. */
  function Expanded(w: World, items: seq<Item>): Option<seq<Path>> {
    if items == [] then Some([])
    else if !items[0].Param? || w.expand(items[0]).None? then None
    else
      match Expanded(w, items[1..])
      case None => None
      case Some(rest) => Some(w.expand(items[0]).value + rest)
  }

  /** The children of a file with these sections, in the order they are merged. */
  function Children(w: World, sections: seq<Section>): Option<seq<Path>> {
    match Expanded(w, Named(sections, "include"))
    case None => None
    case Some(files) => Some(SortPaths(files))
  }

  /** The files of the include tree under `p`, in preorder; None if it cannot be read in full. */
  function Preorder(w: World, p: Path, depth: nat): Option<seq<Path>>
    decreases MAX_DEPTH - depth, 0
  {
    if depth >= MAX_DEPTH || Own(w, p).None? then None
    else
      match Children(w, Own(w, p).value)
      case None => None
      case Some(children) =>
        match PreorderAll(w, children, depth + 1)
        case None => None
        case Some(files) => Some([p] + files)
  }

  function PreorderAll(w: World, ps: seq<Path>, depth: nat): Option<seq<Path>>
    decreases MAX_DEPTH - depth, 1 + |ps|
  {
    if ps == [] then Some([])
    else
      match Preorder(w, ps[0], depth)
      case None => None
      case Some(files) =>
        match PreorderAll(w, ps[1..], depth)
        case None => None
        case Some(rest) => Some(files + rest)
  }

  /** The sections of a list of files, one file after the other. */
  function AllSections(w: World, files: seq<Path>): seq<Section> {
    if files == [] then [] else OwnSections(w, files[0]) + AllSections(w, files[1..])
  }

  lemma {:induction false} AllSectionsConcat(w: World, x: seq<Path>, y: seq<Path>)
    ensures AllSections(w, x + y) == AllSections(w, x) + AllSections(w, y)
    decreases x
  {
    if x == [] {
      assert x + y == y;
    } else {
      AllSectionsConcat(w, x[1..], y);
      assert (x + y)[1..] == x[1..] + y;
      SectionsRegroup(OwnSections(w, x[0]), AllSections(w, x[1..]), AllSections(w, y));
    }
  }

  lemma SectionsRegroup(a: seq<Section>, b: seq<Section>, c: seq<Section>)
    ensures a + (b + c) == (a + b) + c
  {
  }


  /* ----- limits ----- */

  /** What has been read so far. */
  datatype Ledger = Ledger(visited: set<Id>, files: nat, bytes: nat, items: nat)

  function Length(w: World, p: Path): nat {
    if w.file(p).File? then w.file(p).length else 0
  }

  function Add(w: World, l: Ledger, p: Path): Ledger {
    Ledger(l.visited + {w.id(p)}, l.files + 1, l.bytes + Length(w, p), l.items + CountNodes(OwnSections(w, p)))
  }

  /** One more file may be read. */
  predicate Admits(w: World, l: Ledger, p: Path) {
    && w.id(p) !in l.visited
    && l.files + 1 <= MAX_FILES
    && l.bytes + Length(w, p) <= MAX_TOTAL_BYTES
    && l.items + CountNodes(OwnSections(w, p)) <= MAX_ITEMS
  }

  function AddAll(w: World, l: Ledger, files: seq<Path>): Ledger
    decreases files
  {
    if files == [] then l else AddAll(w, Add(w, l, files[0]), files[1..])
  }

  predicate AdmitsAll(w: World, l: Ledger, files: seq<Path>)
    decreases files
  {
    files == [] || (Admits(w, l, files[0]) && AdmitsAll(w, Add(w, l, files[0]), files[1..]))
  }

  lemma {:induction false} AddConcat(w: World, l: Ledger, x: seq<Path>, y: seq<Path>)
    ensures AddAll(w, l, x + y) == AddAll(w, AddAll(w, l, x), y)
    ensures AdmitsAll(w, l, x + y) <==> AdmitsAll(w, l, x) && AdmitsAll(w, AddAll(w, l, x), y)
    decreases x
  {
    if x == [] {
      assert x + y == y;
    } else {
      AddConcat(w, Add(w, l, x[0]), x[1..], y);
      assert (x + y)[1..] == x[1..] + y;
    }
  }

  function TotalLength(w: World, files: seq<Path>): nat {
    if files == [] then 0 else Length(w, files[0]) + TotalLength(w, files[1..])
  }

  /** All files differ, by canonical path, from each other and from those in `visited`. */
  ghost predicate Distinct(w: World, visited: set<Id>, files: seq<Path>) {
    && (forall i :: 0 <= i < |files| ==> w.id(files[i]) !in visited)
    && (forall i, j :: 0 <= i < j < |files| ==> w.id(files[i]) != w.id(files[j]))
  }

  lemma {:induction false} CountConcat(x: seq<Section>, y: seq<Section>)
    ensures CountNodes(x + y) == CountNodes(x) + CountNodes(y)
    decreases x
  {
    if x == [] {
      assert x + y == y;
    } else {
      CountConcat(x[1..], y);
      assert (x + y)[1..] == x[1..] + y;
    }
  }

  lemma DistinctCons(w: World, visited: set<Id>, files: seq<Path>)
    requires files != []
    ensures Distinct(w, visited, files) <==> w.id(files[0]) !in visited && Distinct(w, visited + {w.id(files[0])}, files[1..])
  {
    var tail := files[1..];
    assert forall i :: 0 <= i < |tail| ==> tail[i] == files[i + 1];
    if Distinct(w, visited + {w.id(files[0])}, tail) && w.id(files[0]) !in visited {
      forall i, j | 0 <= i < j < |files| ensures w.id(files[i]) != w.id(files[j]) {
        assert files[j] == tail[j - 1];
        if i > 0 { assert files[i] == tail[i - 1]; }
      }
      forall i | 0 <= i < |files| ensures w.id(files[i]) !in visited {
        if i > 0 { assert files[i] == tail[i - 1]; }
      }
    }
  }

  /** Checking the limits file by file is checking them on the totals. */
  lemma {:induction false} LimitsOnTotals(w: World, l: Ledger, files: seq<Path>)
    requires l.files <= MAX_FILES && l.bytes <= MAX_TOTAL_BYTES && l.items <= MAX_ITEMS
    ensures AdmitsAll(w, l, files) <==>
      && Distinct(w, l.visited, files)
      && l.files + |files| <= MAX_FILES
      && l.bytes + TotalLength(w, files) <= MAX_TOTAL_BYTES
      && l.items + CountNodes(AllSections(w, files)) <= MAX_ITEMS
    decreases files
  {
    if files != [] {
      DistinctCons(w, l.visited, files);
      CountConcat(OwnSections(w, files[0]), AllSections(w, files[1..]));
      if Admits(w, l, files[0]) { LimitsOnTotals(w, Add(w, l, files[0]), files[1..]); }
    }
  }

  /* ----- include walks ----- */

  predicate Includes(w: World, p: Path, child: Path) {
    Own(w, p).Some? && Children(w, Own(w, p).value).Some? && child in Children(w, Own(w, p).value).value
  }

  /** A walk along includes from `root`. */
  ghost predicate Walk(w: World, root: Path, walk: seq<Path>) {
    && |walk| > 0 && walk[0] == root
    && forall i :: 0 <= i < |walk| - 1 ==> Includes(w, walk[i], walk[i + 1])
  }

  function Ids(w: World, ps: seq<Path>): (r: seq<Id>)
    ensures |r| == |ps| && forall i :: 0 <= i < |ps| ==> r[i] == w.id(ps[i])
  {
    seq<Id>(|ps|, i requires 0 <= i < |ps| => w.id(ps[i]))
  }

  /* ----- places in the include tree ----- */

  /** A place in the tree: which child to take at each step from the root. */
  type Place = seq<nat>

  function Child(w: World, p: Path, k: nat): Option<Path> {
    if Own(w, p).Some? && Children(w, Own(w, p).value).Some? && k < |Children(w, Own(w, p).value).value|
    then Some(Children(w, Own(w, p).value).value[k]) else None
  }

  /** The file at a place. */
  function FileAt(w: World, root: Path, at: Place): Option<Path>
    decreases |at|
  {
    if at == [] then Some(root)
    else
      match FileAt(w, root, at[..|at| - 1])
      case None => None
      case Some(p) => Child(w, p, at[|at| - 1])
  }

  lemma ChildIncluded(w: World, p: Path, k: nat, child: Path)
    requires Child(w, p, k) == Some(child)
    ensures Includes(w, p, child)
  {
    var children := Children(w, Own(w, p).value).value;
    assert children[k] in children;
  }

  lemma InitAndLast(at: Place)
    requires at != []
    ensures at == at[..|at| - 1] + [at[|at| - 1]]
  {
  }

  lemma PlaceBefore(w: World, root: Path, at: Place)
    requires at != [] && FileAt(w, root, at).Some?
    ensures var before := FileAt(w, root, at[..|at| - 1]);
            before.Some? && FileAt(w, root, at) == Child(w, before.value, at[|at| - 1])
  {
  }

  lemma PlaceInit(w: World, root: Path, at: Place, p: Path) returns (init: Place, k: nat, q: Path)
    requires FileAt(w, root, at) == Some(p) && at != []
    ensures at == init + [k] && FileAt(w, root, init) == Some(q) && Child(w, q, k) == Some(p)
  {
    PlaceBefore(w, root, at);
    InitAndLast(at);
    init, k, q := at[..|at| - 1], at[|at| - 1], FileAt(w, root, at[..|at| - 1]).value;
  }

  lemma FileAtSnoc(w: World, root: Path, at: Place, p: Path, k: nat)
    requires FileAt(w, root, at) == Some(p)
    ensures FileAt(w, root, at + [k]) == Child(w, p, k)
  {
    assert (at + [k])[..|at|] == at;
  }

  /** Files on the way to a place: `chain[i]` is the file after `i` steps. */
  ghost predicate Along(w: World, root: Path, chain: seq<Path>, at: Place) {
    |chain| == |at| && forall i :: 0 <= i < |at| ==> FileAt(w, root, at[..i]) == Some(chain[i])
  }

  lemma AlongSnoc(w: World, root: Path, chain: seq<Path>, at: Place, p: Path, k: nat)
    requires Along(w, root, chain, at) && FileAt(w, root, at) == Some(p)
    ensures Along(w, root, chain + [p], at + [k])
  {
    forall i | 0 <= i < |at| + 1 ensures FileAt(w, root, (at + [k])[..i]) == Some((chain + [p])[i]) {
      if i < |at| { assert (at + [k])[..i] == at[..i]; } else { assert (at + [k])[..i] == at; }
    }
  }

  /* ----- repetitions ----- */

  lemma DistinctConcat(w: World, visited: set<Id>, x: seq<Path>, y: seq<Path>)
    requires Distinct(w, visited, x + y)
    ensures Distinct(w, visited, x) && Distinct(w, visited + (set p | p in x :: w.id(p)), y)
  {
    var z := x + y;
    assert forall i :: 0 <= i < |x| ==> z[i] == x[i];
    assert forall i :: 0 <= i < |y| ==> z[|x| + i] == y[i];
    forall i | 0 <= i < |y| ensures w.id(y[i]) !in visited + (set p | p in x :: w.id(p)) {
      assert z[|x| + i] == y[i];
      forall p | p in x ensures w.id(p) != w.id(y[i]) {
        var j :| 0 <= j < |x| && x[j] == p;
        assert z[j] == p;
      }
    }
  }

  lemma {:induction false} AddAllVisited(w: World, l: Ledger, files: seq<Path>)
    ensures AddAll(w, l, files).visited == l.visited + set p | p in files :: w.id(p)
    decreases files
  {
    if files != [] {
      AddAllVisited(w, Add(w, l, files[0]), files[1..]);
      assert files == [files[0]] + files[1..];
    }
  }
}
