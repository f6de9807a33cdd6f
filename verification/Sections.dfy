/**
  Sections of a parsed configuration and their grouping by name
  (`convert_sections_to_map`, `count_section_nodes` and the merge loop of
  `dfs_merge`, crates/dae-config/src/merger.rs).
*/
module Sections {
  /** Parameters and routing rules are opaque here; nested sections are not. */
  datatype Item = Param(id: nat) | Rule(id: nat) | Nested(section: Section)

  datatype Section = Section(name: string, items: seq<Item>)

  type SectionMap = map<string, seq<Item>>

  function CountItem(item: Item): nat {
    match item
    case Nested(section) => 1 + CountSection(section)
    case _ => 1
  }

  function CountSection(section: Section): nat {
    CountItems(section.items)
  }

  function CountItems(items: seq<Item>): nat {
    if items == [] then 0 else CountItem(items[0]) + CountItems(items[1..])
  }

  /** `count_section_nodes`. */
  function CountNodes(sections: seq<Section>): nat {
    if sections == [] then 0 else 1 + CountSection(sections[0]) + CountNodes(sections[1..])
  }

  function Get(m: SectionMap, name: string): seq<Item> {
    if name in m then m[name] else []
  }

  /** `entry(name).or_default().extend(items)`. */
  function Extend(m: SectionMap, name: string, items: seq<Item>): SectionMap {
    m[name := Get(m, name) + items]
  }

  predicate Has(sections: seq<Section>, name: string) {
    exists i :: 0 <= i < |sections| && sections[i].name == name
  }

  /** The items of every section called `name`, in order of appearance. */
  function Named(sections: seq<Section>, name: string): seq<Item> {
    if sections == [] then []
    else (if sections[0].name == name then sections[0].items else []) + Named(sections[1..], name)
  }

  /** `m` groups `sections` by name. */
  ghost predicate Groups(m: SectionMap, sections: seq<Section>) {
    && (forall name :: name in m <==> Has(sections, name))
    && (forall name :: name in m ==> m[name] == Named(sections, name))
  }

  lemma GroupsUnique(m: SectionMap, m': SectionMap, sections: seq<Section>)
    requires Groups(m, sections) && Groups(m', sections)
    ensures m == m'
  {
  }

  lemma Regrouped(a: seq<Item>, b: seq<Item>, c: seq<Item>)
    ensures a + (b + c) == (a + b) + c
  {
  }

  lemma {:induction false} NamedConcat(x: seq<Section>, y: seq<Section>, name: string)
    ensures Named(x + y, name) == Named(x, name) + Named(y, name)
    decreases x
  {
    if x == [] {
      assert x + y == y;
    } else {
      NamedConcat(x[1..], y, name);
      assert (x + y)[1..] == x[1..] + y;
      Regrouped(if x[0].name == name then x[0].items else [], Named(x[1..], name), Named(y, name));
    }
  }

  lemma HasConcat(x: seq<Section>, y: seq<Section>, name: string)
    ensures Has(x + y, name) <==> Has(x, name) || Has(y, name)
  {
    if Has(x, name) {
      var i :| 0 <= i < |x| && x[i].name == name;
      assert (x + y)[i].name == name;
    }
    if Has(y, name) {
      var i :| 0 <= i < |y| && y[i].name == name;
      assert (x + y)[|x| + i].name == name;
    }
  }

  lemma {:induction false} AbsentNamed(x: seq<Section>, name: string)
    requires !Has(x, name)
    ensures Named(x, name) == []
  {
    if x != [] {
      assert x[0].name != name;
      assert forall i :: 0 <= i < |x| - 1 ==> x[1..][i] == x[i + 1];
      AbsentNamed(x[1..], name);
    }
  }

  lemma GetNamed(m: SectionMap, x: seq<Section>, name: string)
    requires Groups(m, x)
    ensures Get(m, name) == Named(x, name)
  {
    if name !in m { AbsentNamed(x, name); }
  }

  lemma GroupsExtend(m: SectionMap, x: seq<Section>, s: Section)
    requires Groups(m, x)
    ensures Groups(Extend(m, s.name, s.items), x + [s])
  {
    var m' := Extend(m, s.name, s.items);
    assert [s][0].name == s.name;
    forall name ensures (name in m' <==> Has(x + [s], name)) && (name in m' ==> m'[name] == Named(x + [s], name)) {
      HasConcat(x, [s], name);
      NamedConcat(x, [s], name);
      GetNamed(m, x, name);
      assert [s][1..] == [];
    }
  }

  lemma GroupsNext(m: SectionMap, sections: seq<Section>, i: nat)
    requires i < |sections| && Groups(m, sections[..i])
    ensures Groups(Extend(m, sections[i].name, sections[i].items), sections[..i + 1])
  {
    TakeNext(sections, i);
    GroupsExtend(m, sections[..i], sections[i]);
  }

  lemma TakeNext(sections: seq<Section>, i: nat)
    requires i < |sections|
    ensures sections[..i + 1] == sections[..i] + [sections[i]]
  {
  }

  lemma GroupsLast(m: SectionMap, sections: seq<Section>)
    requires sections != [] && Groups(m, sections[..|sections| - 1])
    ensures Groups(Extend(m, sections[|sections| - 1].name, sections[|sections| - 1].items), sections)
  {
    GroupsNext(m, sections, |sections| - 1);
    assert sections[..|sections| - 1 + 1] == sections;
  }

  /** The sections grouped by name. */
  ghost function Grouped(sections: seq<Section>): (m: SectionMap)
    ensures Groups(m, sections)
    decreases |sections|
  {
    if sections == [] then map[]
    else
      var init, last := sections[..|sections| - 1], sections[|sections| - 1];
      GroupsLast(Grouped(init), sections);
      Extend(Grouped(init), last.name, last.items)
  }

  /** `convert_sections_to_map`. */
  method ConvertSectionsToMap(sections: seq<Section>) returns (m: SectionMap)
    ensures Groups(m, sections)
  {
    m := map[];
    for i := 0 to |sections|
      invariant Groups(m, sections[..i])
    {
      GroupsNext(m, sections, i);
      m := Extend(m, sections[i].name, sections[i].items);
    }
    assert sections[..|sections|] == sections;
  }

  /** The father's map after its child's has been merged into it. */
  function Merge(father: SectionMap, child: SectionMap): SectionMap {
    map name | name in father.Keys + child.Keys :: Get(father, name) + Get(child, name)
  }

  /** Merging a child appends its sections to the father's. */
  lemma GroupsMerge(a: SectionMap, b: SectionMap, x: seq<Section>, y: seq<Section>)
    requires Groups(a, x) && Groups(b, y)
    ensures Groups(Merge(a, b), x + y)
  {
    forall name ensures (name in Merge(a, b) <==> Has(x + y, name)) && (name in Merge(a, b) ==> Merge(a, b)[name] == Named(x + y, name)) {
      HasConcat(x, y, name);
      NamedConcat(x, y, name);
      GetNamed(a, x, name);
      GetNamed(b, y, name);
    }
  }

  lemma MergeNothing(father: SectionMap, child: SectionMap)
    requires child.Keys == {}
    ensures Merge(father, child) == father
  {
    forall name | name in father ensures Merge(father, child)[name] == father[name] {
      assert Get(child, name) == [] && father[name] + [] == father[name];
    }
  }

  /** One turn of the merge loop: `name` is no longer to do. */
  lemma MergeName(father: SectionMap, child: SectionMap, todo: set<string>, name: string)
    requires name in todo && todo <= child.Keys
    ensures Extend(Merge(father, child - todo), name, child[name]) == Merge(father, child - (todo - {name}))
  {
    var before, after := Merge(father, child - todo), Merge(father, child - (todo - {name}));
    assert Get(before, name) == Get(father, name);
    assert after[name] == Get(father, name) + child[name];
    forall other | other in after && other != name ensures other in before && before[other] == after[other] {
      assert Get(child - todo, other) == Get(child - (todo - {name}), other);
    }
  }

  /** The merge loop, over the child's names in any order. */
  method MergeInto(father: SectionMap, child: SectionMap) returns (m: SectionMap)
    ensures m == Merge(father, child)
  {
    m := father;
    var todo := child.Keys;
    MergeNothing(father, child - todo);
    while todo != {}
      invariant todo <= child.Keys && m == Merge(father, child - todo)
      decreases |todo|
    {
      var name :| name in todo;
      MergeName(father, child, todo, name);
      todo := todo - {name};
      m := Extend(m, name, child[name]);
    }
    assert child - {} == child;
  }
}
