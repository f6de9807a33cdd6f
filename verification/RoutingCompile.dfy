/**
  Compiling configured DNS request rules into flattened match sets
  (crates/dae-resident-dns/src/runtime/routing.rs), and the theorem that
  evaluating the compiled list gives what the rules mean.
*/
module RoutingCompile {
  import opened Bytes
  import opened Routing

  /**
    One keyed parameter group of a function: a domain pattern set, None if its key is
    not supported or its patterns are refused; query types, each None if it is not one;
    or the parameters of any other function.
  */
  datatype Group = NameGroup(patterns: Option<nat>) | TypeGroup(values: seq<Option<nat>>) | UnsupportedGroup

  datatype Function = Function(not: bool, groups: seq<Group>)

  /** A rule; its outbound is None if it names no upstream. */
  datatype Rule = Rule(functions: seq<Function>, outbound: Option<byte>) {
    function Target(): byte {
      if outbound.Some? then outbound.value else 0
    }
  }

  /** A query: its type, and the pattern sets its name matches. */
  datatype Query = Query(qtype: nat, matched: set<nat>)

  /* ----- what rules mean ----- */

  predicate GroupMatches(g: Group, q: Query) {
    match g
    case NameGroup(p) => p.Some? && p.value in q.matched
    case TypeGroup(vs) => Some(q.qtype) in vs
    case UnsupportedGroup => false
  }

  predicate FunctionHolds(f: Function, q: Query) {
    (exists g :: g in f.groups && GroupMatches(g, q)) != f.not
  }

  predicate RuleApplies(r: Rule, q: Query) {
    forall f :: f in r.functions ==> FunctionHolds(f, q)
  }

  /** The target of the first rule that applies, or the fallback. */
  function Meaning(rules: seq<Rule>, fallback: byte, q: Query): byte {
    if rules == [] then fallback
    else if RuleApplies(rules[0], q) then rules[0].Target()
    else Meaning(rules[1..], fallback, q)
  }

  /* ----- the compiled form ----- */

  datatype Atom = NameAtom(patterns: nat) | TypeAtom(value: nat)

  predicate AtomMatches(a: Atom, q: Query) {
    match a
    case NameAtom(p) => p in q.matched
    case TypeAtom(v) => q.qtype == v
  }

  function GroupAtoms(g: Group): seq<Atom> {
    match g
    case NameGroup(p) => [NameAtom(OrZero(p))]
    case TypeGroup(vs) => seq(|vs|, i requires 0 <= i < |vs| => TypeAtom(OrZero(vs[i])))
    case UnsupportedGroup => []
  }

  function OrZero(n: Option<nat>): nat {
    if n.Some? then n.value else 0
  }

  function FunctionAtoms(gs: seq<Group>): seq<Atom> {
    if gs == [] then [] else GroupAtoms(gs[0]) + FunctionAtoms(gs[1..])
  }

  predicate GroupOk(g: Group) {
    match g
    case NameGroup(p) => p.Some?
    case TypeGroup(vs) => vs != [] && forall i :: 0 <= i < |vs| ==> vs[i].Some?
    case UnsupportedGroup => false
  }

  predicate FunctionOk(f: Function) {
    f.groups != [] && forall i :: 0 <= i < |f.groups| ==> GroupOk(f.groups[i])
  }

  /** What the compiler accepts, its targets being real outbound indices. */
  predicate RuleOk(r: Rule) {
    && r.functions != [] && r.outbound.Some? && r.outbound.value < LOGICAL_OR
    && forall i :: 0 <= i < |r.functions| ==> FunctionOk(r.functions[i])
  }

  function SetOf(a: Atom, not: bool, upstream: byte): MatchSet {
    match a
    case NameAtom(_) => MatchSet(DomainSet, 0, not, upstream)
    case TypeAtom(v) => MatchSet(QType, v, not, upstream)
  }

  /** Atoms joined by OR, the last one carrying `last`. */
  function CompileAtoms(atoms: seq<Atom>, not: bool, last: byte): (r: seq<MatchSet>)
    ensures |r| == |atoms|
  {
    seq(|atoms|, i requires 0 <= i < |atoms| => SetOf(atoms[i], not, if i == |atoms| - 1 then last else LOGICAL_OR))
  }

  function CompileFunctions(fs: seq<Function>, target: byte): seq<MatchSet> {
    if fs == [] then []
    else CompileAtoms(FunctionAtoms(fs[0].groups), fs[0].not, if |fs| == 1 then target else LOGICAL_AND)
         + CompileFunctions(fs[1..], target)
  }

  function CompileRules(rules: seq<Rule>, fallback: byte): seq<MatchSet> {
    if rules == [] then [MatchSet(Fallback, 0, false, fallback)]
    else CompileFunctions(rules[0].functions, rules[0].Target()) + CompileRules(rules[1..], fallback)
  }

  function HitsOf(atoms: seq<Atom>, q: Query): (r: seq<bool>)
    ensures |r| == |atoms|
  {
    seq(|atoms|, i requires 0 <= i < |atoms| => AtomMatches(atoms[i], q))
  }

  function FunctionsHits(fs: seq<Function>, q: Query): (r: seq<bool>)
    ensures forall target :: |r| == |CompileFunctions(fs, target)|
  {
    if fs == [] then [] else HitsOf(FunctionAtoms(fs[0].groups), q) + FunctionsHits(fs[1..], q)
  }

  function RulesHits(rules: seq<Rule>, q: Query): (r: seq<bool>)
    ensures forall fallback :: |r| == |CompileRules(rules, fallback)|
  {
    if rules == [] then [true] else FunctionsHits(rules[0].functions, q) + RulesHits(rules[1..], q)
  }

  /* ----- starts and winners in a concatenation ----- */

  lemma {:induction false} PrefixStarts(a: seq<MatchSet>, b: seq<MatchSet>, i: nat)
    requires i <= |a|
    ensures GroupStart(a + b, i) == GroupStart(a, i) && RuleStart(a + b, i) == RuleStart(a, i)
    decreases i
  {
    if i > 0 { PrefixStarts(a, b, i - 1); }
  }

  /** `a` closes its last group, so groups of `b` start afresh. */
  lemma {:induction false} ShiftGroup(a: seq<MatchSet>, b: seq<MatchSet>, i: nat)
    requires a != [] && EndsGroup(a, |a| - 1) && i <= |b|
    ensures GroupStart(a + b, |a| + i) == |a| + GroupStart(b, i)
    decreases i
  {
    if i > 0 { ShiftGroup(a, b, i - 1); }
  }

  lemma {:induction false} ShiftRule(a: seq<MatchSet>, b: seq<MatchSet>, i: nat)
    requires a != [] && EndsRule(a, |a| - 1) && i <= |b|
    ensures RuleStart(a + b, |a| + i) == |a| + RuleStart(b, i)
    decreases i
  {
    if i > 0 { ShiftRule(a, b, i - 1); }
  }

  lemma AnyHitConcat(h: seq<bool>, k: seq<bool>, lo: nat, hi: nat)
    ensures hi <= |h| ==> AnyHit(h + k, lo, hi) == AnyHit(h, lo, hi)
    ensures hi <= |k| ==> AnyHit(h + k, |h| + lo, |h| + hi) == AnyHit(k, lo, hi)
  {
    if hi <= |k| && AnyHit(k, lo, hi) {
      var m :| lo <= m < hi && k[m];
      assert (h + k)[|h| + m];
    }
    if hi <= |k| && AnyHit(h + k, |h| + lo, |h| + hi) {
      var m :| |h| + lo <= m < |h| + hi && (h + k)[m];
      assert k[m - |h|];
    }
    if hi <= |h| && AnyHit(h, lo, hi) {
      var m :| lo <= m < hi && h[m];
      assert (h + k)[m];
    }
  }

  lemma PrefixGroup(a: seq<MatchSet>, b: seq<MatchSet>, h: seq<bool>, k: seq<bool>, g: nat)
    requires g < |a| == |h| && |b| == |k|
    ensures GroupHolds(a + b, h + k, g) == GroupHolds(a, h, g)
  {
    PrefixStarts(a, b, g);
    AnyHitConcat(h, k, GroupStart(a, g), g + 1);
  }

  lemma SuffixGroup(a: seq<MatchSet>, b: seq<MatchSet>, h: seq<bool>, k: seq<bool>, g: nat)
    requires a != [] && EndsGroup(a, |a| - 1) && |a| == |h| && g < |b| == |k|
    ensures GroupHolds(a + b, h + k, |a| + g) == GroupHolds(b, k, g)
  {
    ShiftGroup(a, b, g);
    AnyHitConcat(h, k, GroupStart(b, g), g + 1);
  }

  lemma PrefixWins(a: seq<MatchSet>, b: seq<MatchSet>, h: seq<bool>, k: seq<bool>, e: nat)
    requires e < |a| == |h| && |b| == |k|
    ensures Wins(a + b, h + k, e) == Wins(a, h, e)
  {
    PrefixStarts(a, b, e);
    forall g | 0 <= g < |a| ensures GroupHolds(a + b, h + k, g) == GroupHolds(a, h, g) { PrefixGroup(a, b, h, k, g); }
  }

  lemma SuffixGroupsHold(a: seq<MatchSet>, b: seq<MatchSet>, h: seq<bool>, k: seq<bool>, lo: nat, hi: nat)
    requires a != [] && EndsGroup(a, |a| - 1) && |a| == |h| && hi <= |b| == |k|
    ensures GroupsHold(a + b, h + k, |a| + lo, |a| + hi) == GroupsHold(b, k, lo, hi)
  {
    if GroupsHold(a + b, h + k, |a| + lo, |a| + hi) {
      forall g | lo <= g < hi && EndsGroup(b, g) ensures GroupHolds(b, k, g) {
        assert EndsGroup(a + b, |a| + g);
        SuffixGroup(a, b, h, k, g);
      }
    }
    if GroupsHold(b, k, lo, hi) {
      forall g | |a| + lo <= g < |a| + hi && EndsGroup(a + b, g) ensures GroupHolds(a + b, h + k, g) {
        assert EndsGroup(b, g - |a|);
        SuffixGroup(a, b, h, k, g - |a|);
      }
    }
  }

  lemma SuffixWins(a: seq<MatchSet>, b: seq<MatchSet>, h: seq<bool>, k: seq<bool>, e: nat)
    requires a != [] && EndsRule(a, |a| - 1) && |a| == |h| && e < |b| == |k|
    ensures Wins(a + b, h + k, |a| + e) == Wins(b, k, e)
  {
    ShiftRule(a, b, e);
    SuffixGroupsHold(a, b, h, k, RuleStart(b, e), e + 1);
  }

  /* ----- one function, one rule ----- */

  lemma {:induction false} StartIsZero(sets: seq<MatchSet>, i: nat)
    requires i <= |sets|
    ensures (forall j :: 0 <= j < i ==> !EndsGroup(sets, j)) ==> GroupStart(sets, i) == 0
    ensures (forall j :: 0 <= j < i ==> !EndsRule(sets, j)) ==> RuleStart(sets, i) == 0
    decreases i
  {
    if i > 0 { StartIsZero(sets, i - 1); }
  }

  lemma GroupHit(g: Group, q: Query)
    requires GroupOk(g)
    ensures GroupMatches(g, q) <==> exists a :: a in GroupAtoms(g) && AtomMatches(a, q)
  {
    match g {
      case NameGroup(p) => assert NameAtom(p.value) in GroupAtoms(g);
      case TypeGroup(vs) =>
        if Some(q.qtype) in vs {
          var i :| 0 <= i < |vs| && vs[i] == Some(q.qtype);
          assert GroupAtoms(g)[i] == TypeAtom(q.qtype);
          assert TypeAtom(q.qtype) in GroupAtoms(g);
        }
        if a :| a in GroupAtoms(g) && AtomMatches(a, q) {
          var i :| 0 <= i < |vs| && GroupAtoms(g)[i] == a;
          assert vs[i] == Some(q.qtype);
        }
    }
  }

  lemma {:induction false} GroupsHit(gs: seq<Group>, q: Query)
    requires forall i :: 0 <= i < |gs| ==> GroupOk(gs[i])
    ensures (exists g :: g in gs && GroupMatches(g, q)) <==> exists a :: a in FunctionAtoms(gs) && AtomMatches(a, q)
    decreases |gs|
  {
    if gs != [] {
      GroupHit(gs[0], q);
      GroupsHit(gs[1..], q);
      assert forall g :: g in gs <==> g == gs[0] || g in gs[1..];
    }
  }

  lemma {:induction false} AtomsNonempty(gs: seq<Group>)
    requires gs != [] && forall i :: 0 <= i < |gs| ==> GroupOk(gs[i])
    ensures FunctionAtoms(gs) != []
  {
  }

  predicate AnyMatches(atoms: seq<Atom>, q: Query) {
    exists a :: a in atoms && AtomMatches(a, q)
  }

  lemma AnyHitIs(atoms: seq<Atom>, q: Query)
    ensures AnyHit(HitsOf(atoms, q), 0, |atoms|) <==> AnyMatches(atoms, q)
  {
    var h := HitsOf(atoms, q);
    if AnyMatches(atoms, q) {
      var a :| a in atoms && AtomMatches(a, q);
      var i :| 0 <= i < |atoms| && atoms[i] == a;
      assert h[i];
    }
    if AnyHit(h, 0, |atoms|) {
      var m :| 0 <= m < |atoms| && h[m];
      assert atoms[m] in atoms;
    }
  }

  /** Sets that all but the last go on with OR are one group. */
  lemma OneGroup(s: seq<MatchSet>, h: seq<bool>)
    requires s != [] && |h| == |s| && EndsGroup(s, |s| - 1) && forall j :: 0 <= j < |s| - 1 ==> !EndsGroup(s, j)
    ensures GroupsHold(s, h, 0, |s|) <==> AnyHit(h, 0, |s|) != s[|s| - 1].not
  {
    var e := |s| - 1;
    StartIsZero(s, e);
    assert GroupHolds(s, h, e) <==> AnyHit(h, 0, e + 1) != s[e].not;
  }

  lemma AtomsAreOneGroup(atoms: seq<Atom>, not: bool, last: byte, q: Query)
    requires atoms != [] && last != LOGICAL_OR
    ensures Compiled(CompileAtoms(atoms, not, last), HitsOf(atoms, q), last, AnyMatches(atoms, q) != not)
  {
    OneGroup(CompileAtoms(atoms, not, last), HitsOf(atoms, q));
    AnyHitIs(atoms, q);
  }

  lemma JoinGroupsHold(a: seq<MatchSet>, b: seq<MatchSet>, h: seq<bool>, k: seq<bool>)
    requires a != [] && EndsGroup(a, |a| - 1) && |a| == |h| && |b| == |k|
    ensures GroupsHold(a + b, h + k, 0, |a + b|) <==> GroupsHold(a, h, 0, |a|) && GroupsHold(b, k, 0, |b|)
  {
    SuffixGroupsHold(a, b, h, k, 0, |b|);
    forall g | 0 <= g < |a|
      ensures GroupHolds(a + b, h + k, g) == GroupHolds(a, h, g) && EndsGroup(a + b, g) == EndsGroup(a, g)
    {
      PrefixGroup(a, b, h, k, g);
    }
    assert GroupsHold(a + b, h + k, 0, |a + b|) <==>
           GroupsHold(a + b, h + k, 0, |a|) && GroupsHold(a + b, h + k, |a| + 0, |a| + |b|);
  }

  /** Sets of one rule, or the start of one, whose groups all hold exactly when `holds`. */
  ghost predicate Compiled(s: seq<MatchSet>, h: seq<bool>, last: byte, holds: bool) {
    && s != [] && |h| == |s| && s[|s| - 1].upstream == last
    && (forall j :: 0 <= j < |s| - 1 ==> s[j].upstream >= LOGICAL_OR)
    && (GroupsHold(s, h, 0, |s|) <==> holds)
  }

  lemma CompiledJoin(a: seq<MatchSet>, b: seq<MatchSet>, h: seq<bool>, k: seq<bool>, target: byte, x: bool, y: bool)
    requires Compiled(a, h, LOGICAL_AND, x) && Compiled(b, k, target, y)
    ensures Compiled(a + b, h + k, target, x && y)
  {
    JoinGroupsHold(a, b, h, k);
  }

  /** The sets of one function form a single group, which holds exactly when the function does. */
  lemma CompiledFunction(f: Function, last: byte, q: Query)
    requires FunctionOk(f) && last != LOGICAL_OR
    ensures Compiled(CompileAtoms(FunctionAtoms(f.groups), f.not, last), HitsOf(FunctionAtoms(f.groups), q), last, FunctionHolds(f, q))
  {
    AtomsNonempty(f.groups);
    GroupsHit(f.groups, q);
    AtomsAreOneGroup(FunctionAtoms(f.groups), f.not, last, q);
  }

  ghost predicate AllHold(fs: seq<Function>, q: Query) {
    forall f :: f in fs ==> FunctionHolds(f, q)
  }

  lemma AllHoldCons(fs: seq<Function>, q: Query)
    requires fs != []
    ensures AllHold(fs, q) <==> FunctionHolds(fs[0], q) && AllHold(fs[1..], q)
  {
    assert forall f :: f in fs <==> f == fs[0] || f in fs[1..];
  }

  /** The functions of a rule compile to groups that all hold exactly when all functions do. */
  lemma {:induction false} AllFunctions(fs: seq<Function>, target: byte, q: Query)
    requires fs != [] && target < LOGICAL_OR && forall i :: 0 <= i < |fs| ==> FunctionOk(fs[i])
    ensures Compiled(CompileFunctions(fs, target), FunctionsHits(fs, q), target, AllHold(fs, q))
    decreases |fs|
  {
    AllHoldCons(fs, q);
    var atoms := FunctionAtoms(fs[0].groups);
    if |fs| == 1 {
      CompiledFunction(fs[0], target, q);
      assert fs[1..] == [];
      assert CompileAtoms(atoms, fs[0].not, target) + [] == CompileAtoms(atoms, fs[0].not, target);
      assert HitsOf(atoms, q) + [] == HitsOf(atoms, q);
    } else {
      CompiledFunction(fs[0], LOGICAL_AND, q);
      AllFunctions(fs[1..], target, q);
      CompiledJoin(CompileAtoms(atoms, fs[0].not, LOGICAL_AND), CompileFunctions(fs[1..], target),
                   HitsOf(atoms, q), FunctionsHits(fs[1..], q), target, FunctionHolds(fs[0], q), AllHold(fs[1..], q));
    }
  }

  /** Sets of a whole rule with this target: they win at their last set and nowhere else, exactly when `applies`. */
  ghost predicate RuleWins(s: seq<MatchSet>, h: seq<bool>, target: byte, applies: bool) {
    && s != [] && |h| == |s| && EndsRule(s, |s| - 1) && s[|s| - 1].upstream == target
    && (forall e :: 0 <= e < |s| - 1 ==> !Wins(s, h, e))
    && (Wins(s, h, |s| - 1) <==> applies)
  }

  lemma SingleRule(s: seq<MatchSet>, h: seq<bool>, target: byte, applies: bool)
    requires Compiled(s, h, target, applies) && target < LOGICAL_OR
    ensures RuleWins(s, h, target, applies)
  {
    StartIsZero(s, |s| - 1);
  }

  /** A compiled rule wins, at its last set and nowhere else, exactly when the rule applies. */
  lemma OneRule(r: Rule, q: Query)
    requires RuleOk(r)
    ensures RuleWins(CompileFunctions(r.functions, r.Target()), FunctionsHits(r.functions, q), r.Target(), RuleApplies(r, q))
  {
    AllFunctions(r.functions, r.Target(), q);
    SingleRule(CompileFunctions(r.functions, r.Target()), FunctionsHits(r.functions, q), r.Target(), RuleApplies(r, q));
  }

  lemma FallbackAlone(fallback: byte)
    requires fallback < LOGICAL_OR
    ensures Answers([MatchSet(Fallback, 0, false, fallback)], [true], Some(fallback))
  {
    var s, h := [MatchSet(Fallback, 0, false, fallback)], [true];
    assert GroupStart(s, 0) == 0 == RuleStart(s, 0);
    assert AnyHit(h, 0, 1) by { assert h[0]; }
    assert GroupHolds(s, h, 0);
    assert FirstWin(s, h, 0);
  }

  predicate RulesOk(rules: seq<Rule>) {
    forall i :: 0 <= i < |rules| ==> RuleOk(rules[i])
  }

  lemma OneRuleFirst(r: Rule, q: Query, b: seq<MatchSet>, hb: seq<bool>, rest: byte)
    requires RuleOk(r) && |b| == |hb| && Answers(b, hb, Some(rest))
    ensures var a, ha := CompileFunctions(r.functions, r.Target()), FunctionsHits(r.functions, q);
            |a| == |ha| && Answers(a + b, ha + hb, Some(if RuleApplies(r, q) then r.Target() else rest))
  {
    OneRule(r, q);
    JoinAnswers(CompileFunctions(r.functions, r.Target()), b, FunctionsHits(r.functions, q), hb, r.Target(), RuleApplies(r, q), rest);
  }

  /** Evaluating the compiled list gives the meaning of the rules, for every query. */
  lemma {:induction false} CompiledMeaning(rules: seq<Rule>, fallback: byte, q: Query)
    requires fallback < LOGICAL_OR && RulesOk(rules)
    ensures |RulesHits(rules, q)| == |CompileRules(rules, fallback)|
    ensures Answers(CompileRules(rules, fallback), RulesHits(rules, q), Some(Meaning(rules, fallback, q)))
    decreases |rules|
  {
    if rules == [] {
      FallbackAlone(fallback);
    } else {
      CompiledMeaning(rules[1..], fallback, q);
      OneRuleFirst(rules[0], q, CompileRules(rules[1..], fallback), RulesHits(rules[1..], q), Meaning(rules[1..], fallback, q));
    }
  }

  lemma JoinAnswers(a: seq<MatchSet>, b: seq<MatchSet>, h: seq<bool>, k: seq<bool>, target: byte, applies: bool, rest: byte)
    requires RuleWins(a, h, target, applies) && |b| == |k| && Answers(b, k, Some(rest))
    ensures Answers(a + b, h + k, Some(if applies then target else rest))
  {
    forall e | 0 <= e < |a| ensures Wins(a + b, h + k, e) == Wins(a, h, e) { PrefixWins(a, b, h, k, e); }
    if applies {
      assert FirstWin(a + b, h + k, |a| - 1);
    } else {
      var e: nat :| FirstWin(b, k, e) && rest == b[e].upstream;
      SuffixWins(a, b, h, k, e);
      forall d | 0 <= d < |a| + e ensures !Wins(a + b, h + k, d) {
        if d >= |a| { SuffixWins(a, b, h, k, d - |a|); }
      }
      assert FirstWin(a + b, h + k, |a| + e);
    }
  }

  /* ----- the compiler ----- */

  function FunctionsAtoms(fs: seq<Function>): seq<Atom> {
    if fs == [] then [] else FunctionAtoms(fs[0].groups) + FunctionsAtoms(fs[1..])
  }

  function RulesAtoms(rules: seq<Rule>): seq<Atom> {
    if rules == [] then [] else FunctionsAtoms(rules[0].functions) + RulesAtoms(rules[1..])
  }

  /** The domain sets registered so far are exactly the name atoms, under their positions. */
  ghost predicate Registered(atoms: seq<Atom>, domainSets: seq<(nat, nat)>) {
    forall i: nat, p: nat :: (i, p) in domainSets <==> i < |atoms| && atoms[i] == NameAtom(p)
  }

  lemma RegisterName(atoms: seq<Atom>, domainSets: seq<(nat, nat)>, p: nat)
    requires Registered(atoms, domainSets)
    ensures Registered(atoms + [NameAtom(p)], domainSets + [(|atoms|, p)])
  {
  }

  lemma RegisterType(atoms: seq<Atom>, domainSets: seq<(nat, nat)>, v: nat)
    requires Registered(atoms, domainSets)
    ensures Registered(atoms + [TypeAtom(v)], domainSets)
  {
  }

  lemma CompileAtomsConcat(a: seq<Atom>, b: seq<Atom>, not: bool, last: byte)
    requires b != []
    ensures CompileAtoms(a + b, not, last) == CompileAtoms(a, not, LOGICAL_OR) + CompileAtoms(b, not, last)
  {
  }

  lemma {:induction false} FunctionAtomsSnoc(gs: seq<Group>, g: Group)
    ensures FunctionAtoms(gs + [g]) == FunctionAtoms(gs) + GroupAtoms(g)
    decreases |gs|
  {
    if gs == [] {
      assert ([] + [g])[1..] == [];
    } else {
      assert (gs + [g])[1..] == gs[1..] + [g];
      FunctionAtomsSnoc(gs[1..], g);
    }
  }

  lemma NextGroup(sets: seq<MatchSet>, atoms: seq<Atom>, gs: seq<Group>, g: Group, not: bool, upstream: byte)
    requires GroupOk(g)
    ensures sets + CompileAtoms(FunctionAtoms(gs), not, LOGICAL_OR) + CompileAtoms(GroupAtoms(g), not, upstream)
            == sets + CompileAtoms(FunctionAtoms(gs + [g]), not, upstream)
    ensures atoms + FunctionAtoms(gs) + GroupAtoms(g) == atoms + FunctionAtoms(gs + [g])
  {
    FunctionAtomsSnoc(gs, g);
    CompileAtomsConcat(FunctionAtoms(gs), GroupAtoms(g), not, upstream);
  }

  /** Sets emitted so far, with the atoms they stand for. */
  ghost predicate Emitted(sets: seq<MatchSet>, atoms: seq<Atom>, domainSets: seq<(nat, nat)>) {
    |sets| == |atoms| && Registered(atoms, domainSets)
  }

  /** `add_request_qname_match`, `add_request_qtype_matches`, and the refusal of any other function. */
  method AddGroup(sets: seq<MatchSet>, domainSets: seq<(nat, nat)>, ghost atoms: seq<Atom>, g: Group, not: bool, upstream: byte)
    returns (ok: bool, r: seq<MatchSet>, ds: seq<(nat, nat)>)
    requires Emitted(sets, atoms, domainSets)
    ensures ok <==> GroupOk(g)
    ensures ok ==> r == sets + CompileAtoms(GroupAtoms(g), not, upstream)
    ensures ok ==> Emitted(r, atoms + GroupAtoms(g), ds)
  {
    match g {
      case NameGroup(p) =>
        if p.None? { return false, sets, domainSets; }
        RegisterName(atoms, domainSets, p.value);
        ds := domainSets + [(|sets|, p.value)];
        r := sets + [MatchSet(DomainSet, 0, not, upstream)];
        ok := true;
      case TypeGroup(vs) =>
        if vs == [] { return false, sets, domainSets; }
        ok, r, ds := AddTypes(sets, domainSets, atoms, vs, not, upstream);
      case UnsupportedGroup =>
        return false, sets, domainSets;
    }
  }

  method AddTypes(sets: seq<MatchSet>, domainSets: seq<(nat, nat)>, ghost atoms: seq<Atom>, vs: seq<Option<nat>>, not: bool, upstream: byte)
    returns (ok: bool, r: seq<MatchSet>, ds: seq<(nat, nat)>)
    requires Emitted(sets, atoms, domainSets)
    ensures ok <==> forall i :: 0 <= i < |vs| ==> vs[i].Some?
    ensures ok ==> r == sets + CompileAtoms(GroupAtoms(TypeGroup(vs)), not, upstream)
    ensures ok ==> Emitted(r, atoms + GroupAtoms(TypeGroup(vs)), ds)
  {
    r, ds := sets, domainSets;
    ghost var all := GroupAtoms(TypeGroup(vs));
    assert atoms + all[..0] == atoms;
    for i := 0 to |vs|
      invariant forall j :: 0 <= j < i ==> vs[j].Some?
      invariant r == sets + CompileAtoms(all, not, upstream)[..i]
      invariant Emitted(r, atoms + all[..i], ds)
    {
      if vs[i].None? { return false, r, ds; }
      var itemUpstream := if i == |vs| - 1 then upstream else LOGICAL_OR;
      RegisterType(atoms + all[..i], ds, vs[i].value);
      assert atoms + all[..i + 1] == atoms + all[..i] + [TypeAtom(vs[i].value)];
      r := r + [MatchSet(QType, vs[i].value, not, itemUpstream)];
    }
    assert all[..|vs|] == all;
    ok := true;
  }

  /** The first `i` groups of a function have been compiled. */
  ghost predicate GroupsAdded(f: Function, i: nat, last: byte, sets: seq<MatchSet>, atoms: seq<Atom>,
                              r: seq<MatchSet>, ds: seq<(nat, nat)>)
  {
    && i <= |f.groups| && (forall j :: 0 <= j < i ==> GroupOk(f.groups[j]))
    && r == sets + CompileAtoms(FunctionAtoms(f.groups[..i]), f.not, if i == |f.groups| then last else LOGICAL_OR)
    && Emitted(r, atoms + FunctionAtoms(f.groups[..i]), ds)
  }

  lemma NoGroupsAdded(f: Function, last: byte, sets: seq<MatchSet>, atoms: seq<Atom>, ds: seq<(nat, nat)>)
    requires f.groups != [] && Emitted(sets, atoms, ds)
    ensures GroupsAdded(f, 0, last, sets, atoms, sets, ds)
  {
    assert atoms + [] == atoms && sets + [] == sets;
  }

  lemma NextGroupAdded(f: Function, i: nat, last: byte, sets: seq<MatchSet>, atoms: seq<Atom>,
                       before: seq<MatchSet>, ds: seq<(nat, nat)>, r: seq<MatchSet>, ds': seq<(nat, nat)>)
    requires GroupsAdded(f, i, last, sets, atoms, before, ds) && i < |f.groups| && GroupOk(f.groups[i])
    requires r == before + CompileAtoms(GroupAtoms(f.groups[i]), f.not, if i == |f.groups| - 1 then last else LOGICAL_OR)
    requires Emitted(r, atoms + FunctionAtoms(f.groups[..i]) + GroupAtoms(f.groups[i]), ds')
    ensures GroupsAdded(f, i + 1, last, sets, atoms, r, ds')
  {
    assert f.groups[..i + 1] == f.groups[..i] + [f.groups[i]];
    NextGroup(sets, atoms, f.groups[..i], f.groups[i], f.not, if i == |f.groups| - 1 then last else LOGICAL_OR);
  }

  lemma AllGroupsAdded(f: Function, last: byte, sets: seq<MatchSet>, atoms: seq<Atom>, r: seq<MatchSet>, ds: seq<(nat, nat)>)
    requires f.groups != [] && GroupsAdded(f, |f.groups|, last, sets, atoms, r, ds)
    ensures FunctionOk(f) && r == sets + CompileAtoms(FunctionAtoms(f.groups), f.not, last)
    ensures Emitted(r, atoms + FunctionAtoms(f.groups), ds)
  {
    assert f.groups[..|f.groups|] == f.groups;
  }

  /** The group loop of `compile_request_rule`; not ok where the source reports an error. */
  method AddFunction(sets: seq<MatchSet>, domainSets: seq<(nat, nat)>, ghost atoms: seq<Atom>, f: Function, last: byte)
    returns (ok: bool, r: seq<MatchSet>, ds: seq<(nat, nat)>)
    requires Emitted(sets, atoms, domainSets)
    ensures ok <==> FunctionOk(f)
    ensures ok ==> r == sets + CompileAtoms(FunctionAtoms(f.groups), f.not, last)
    ensures ok ==> Emitted(r, atoms + FunctionAtoms(f.groups), ds)
  {
    r, ds := sets, domainSets;
    var n := |f.groups|;
    if n == 0 { return false, r, ds; }
    NoGroupsAdded(f, last, sets, atoms, ds);
    for i := 0 to n
      invariant GroupsAdded(f, i, last, sets, atoms, r, ds)
    {
      ghost var before, ds0 := r, ds;
      var upstream := if i == n - 1 then last else LOGICAL_OR;
      var okG;
      okG, r, ds := AddGroup(r, ds, atoms + FunctionAtoms(f.groups[..i]), f.groups[i], f.not, upstream);
      if !okG { return false, r, ds; }
      NextGroupAdded(f, i, last, sets, atoms, before, ds0, r, ds);
    }
    AllGroupsAdded(f, last, sets, atoms, r, ds);
    ok := true;
  }

  lemma {:induction false} FunctionsAtomsSnoc(fs: seq<Function>, f: Function)
    ensures FunctionsAtoms(fs + [f]) == FunctionsAtoms(fs) + FunctionAtoms(f.groups)
    decreases |fs|
  {
    if fs == [] {
      assert ([] + [f])[1..] == [];
    } else {
      assert (fs + [f])[1..] == fs[1..] + [f];
      FunctionsAtomsSnoc(fs[1..], f);
    }
  }

  /** The sets of a function closed by AND. */
  function AndSets(f: Function): seq<MatchSet> {
    CompileAtoms(FunctionAtoms(f.groups), f.not, LOGICAL_AND)
  }

  /** What `piece` makes of each function, one after the other. */
  function Flat(piece: Function -> seq<MatchSet>, fs: seq<Function>): seq<MatchSet> {
    if fs == [] then [] else piece(fs[0]) + Flat(piece, fs[1..])
  }

  lemma {:induction false} FlatSnoc(piece: Function -> seq<MatchSet>, fs: seq<Function>, f: Function)
    ensures Flat(piece, fs + [f]) == Flat(piece, fs) + piece(f)
    decreases |fs|
  {
    if fs == [] {
      assert ([] + [f])[1..] == [];
    } else {
      assert (fs + [f])[1..] == fs[1..] + [f];
      FlatSnoc(piece, fs[1..], f);
    }
  }

  lemma FlatCons(piece: Function -> seq<MatchSet>, f: Function, fs: seq<Function>)
    ensures Flat(piece, [f] + fs) == piece(f) + Flat(piece, fs)
  {
    assert ([f] + fs)[1..] == fs;
  }

  /** The sets of all but the last function of a rule: every group closed by AND. */
  function ClosedByAnd(fs: seq<Function>): seq<MatchSet> {
    Flat(AndSets, fs)
  }

  /** Reading the functions of a rule left to right gives the same sets as the recursive definition. */
  lemma {:induction false} LastFunction(fs: seq<Function>, target: byte)
    requires fs != []
    ensures var l := fs[|fs| - 1];
            CompileFunctions(fs, target) == ClosedByAnd(fs[..|fs| - 1]) + CompileAtoms(FunctionAtoms(l.groups), l.not, target)
    decreases |fs|
  {
    if |fs| > 1 {
      var rest := fs[1..];
      LastFunction(rest, target);
      assert fs[..|fs| - 1] == [fs[0]] + rest[..|rest| - 1];
      FlatCons(AndSets, fs[0], rest[..|rest| - 1]);
    } else {
      assert fs[1..] == [];
    }
  }

  /** The sets emitted for a rule after `i` of its functions. */
  ghost function RulePrefix(fs: seq<Function>, target: byte, i: nat): seq<MatchSet>
    requires i <= |fs|
  {
    if i < |fs| then ClosedByAnd(fs[..i]) else CompileFunctions(fs, target)
  }

  lemma NextSets(fs: seq<Function>, target: byte, i: nat)
    requires i < |fs|
    ensures RulePrefix(fs, target, i)
            + CompileAtoms(FunctionAtoms(fs[i].groups), fs[i].not, if i == |fs| - 1 then target else LOGICAL_AND)
            == RulePrefix(fs, target, i + 1)
  {
    if i == |fs| - 1 {
      LastFunction(fs, target);
    } else {
      assert fs[..i + 1] == fs[..i] + [fs[i]];
      FlatSnoc(AndSets, fs[..i], fs[i]);
    }
  }

  lemma NextAtoms(fs: seq<Function>, i: nat)
    requires i < |fs|
    ensures FunctionsAtoms(fs[..i]) + FunctionAtoms(fs[i].groups) == FunctionsAtoms(fs[..i + 1])
  {
    assert fs[..i + 1] == fs[..i] + [fs[i]];
    FunctionsAtomsSnoc(fs[..i], fs[i]);
  }

  lemma Assoc<T>(x: seq<T>, y: seq<T>, z: seq<T>)
    ensures x + y + z == x + (y + z)
  {
  }

  lemma NextFunction(sets: seq<MatchSet>, atoms: seq<Atom>, fs: seq<Function>, target: byte, i: nat)
    requires i < |fs|
    ensures sets + RulePrefix(fs, target, i)
            + CompileAtoms(FunctionAtoms(fs[i].groups), fs[i].not, if i == |fs| - 1 then target else LOGICAL_AND)
            == sets + RulePrefix(fs, target, i + 1)
    ensures atoms + FunctionsAtoms(fs[..i]) + FunctionAtoms(fs[i].groups) == atoms + FunctionsAtoms(fs[..i + 1])
  {
    NextSets(fs, target, i);
    NextAtoms(fs, i);
    Assoc(sets, RulePrefix(fs, target, i), CompileAtoms(FunctionAtoms(fs[i].groups), fs[i].not, if i == |fs| - 1 then target else LOGICAL_AND));
    Assoc(atoms, FunctionsAtoms(fs[..i]), FunctionAtoms(fs[i].groups));
  }

  /** `compile_request_rule`. */
  method AddRule(sets: seq<MatchSet>, domainSets: seq<(nat, nat)>, ghost atoms: seq<Atom>, rule: Rule)
    returns (ok: bool, r: seq<MatchSet>, ds: seq<(nat, nat)>)
    requires Emitted(sets, atoms, domainSets) && rule.Target() < LOGICAL_OR
    ensures ok <==> RuleOk(rule)
    ensures ok ==> r == sets + CompileFunctions(rule.functions, rule.Target())
    ensures ok ==> Emitted(r, atoms + FunctionsAtoms(rule.functions), ds)
  {
    r, ds := sets, domainSets;
    var fs := rule.functions;
    if fs == [] || rule.outbound.None? { return false, r, ds; }
    assert atoms + [] == atoms && sets + [] == sets;
    for i := 0 to |fs|
      invariant forall j :: 0 <= j < i ==> FunctionOk(fs[j])
      invariant r == sets + RulePrefix(fs, rule.Target(), i)
      invariant Emitted(r, atoms + FunctionsAtoms(fs[..i]), ds)
    {
      var last := if i == |fs| - 1 then rule.Target() else LOGICAL_AND;
      NextFunction(sets, atoms, fs, rule.Target(), i);
      var okF;
      okF, r, ds := AddFunction(r, ds, atoms + FunctionsAtoms(fs[..i]), fs[i], last);
      if !okF { return false, r, ds; }
    }
    assert fs[..|fs|] == fs;
    ok := true;
  }

  lemma {:induction false} RulesAtomsSnoc(rules: seq<Rule>, r: Rule)
    ensures RulesAtoms(rules + [r]) == RulesAtoms(rules) + FunctionsAtoms(r.functions)
    decreases |rules|
  {
    if rules == [] {
      assert ([] + [r])[1..] == [];
    } else {
      assert (rules + [r])[1..] == rules[1..] + [r];
      RulesAtomsSnoc(rules[1..], r);
    }
  }

  /** The sets of the rules alone, left to right. */
  function RuleSets(rules: seq<Rule>): seq<MatchSet> {
    if rules == [] then []
    else RuleSets(rules[..|rules| - 1]) + CompileFunctions(rules[|rules| - 1].functions, rules[|rules| - 1].Target())
  }

  lemma {:induction false} CompileRulesIs(rules: seq<Rule>, fallback: byte, done: seq<Rule>)
    ensures RuleSets(done) + CompileRules(rules, fallback) == RuleSets(done + rules) + [MatchSet(Fallback, 0, false, fallback)]
    decreases |rules|
  {
    if rules == [] {
      assert done + rules == done;
    } else {
      var done' := done + [rules[0]];
      assert done'[..|done|] == done;
      assert done + rules == done' + rules[1..];
      CompileRulesIs(rules[1..], fallback, done');
    }
  }

  lemma AllRules(rules: seq<Rule>, fallback: byte)
    ensures CompileRules(rules, fallback) == RuleSets(rules) + [MatchSet(Fallback, 0, false, fallback)]
  {
    CompileRulesIs(rules, fallback, []);
    assert [] + rules == rules && RuleSets([]) + CompileRules(rules, fallback) == CompileRules(rules, fallback);
  }

  lemma NextRule(rules: seq<Rule>, i: nat)
    requires i < |rules|
    ensures RuleSets(rules[..i]) + CompileFunctions(rules[i].functions, rules[i].Target()) == RuleSets(rules[..i + 1])
    ensures RulesAtoms(rules[..i]) + FunctionsAtoms(rules[i].functions) == RulesAtoms(rules[..i + 1])
  {
    assert rules[..i + 1] == rules[..i] + [rules[i]] && rules[..i + 1][..i] == rules[..i];
    RulesAtomsSnoc(rules[..i], rules[i]);
  }

  /** The first `i` rules have been compiled. */
  ghost predicate Added(rules: seq<Rule>, i: nat, sets: seq<MatchSet>, domainSets: seq<(nat, nat)>) {
    && i <= |rules| && (forall j :: 0 <= j < i ==> RuleOk(rules[j]))
    && sets == RuleSets(rules[..i]) && Emitted(sets, RulesAtoms(rules[..i]), domainSets)
  }

  lemma AddedNext(rules: seq<Rule>, i: nat, before: seq<MatchSet>, ds: seq<(nat, nat)>, sets: seq<MatchSet>, domainSets: seq<(nat, nat)>)
    requires Added(rules, i, before, ds) && i < |rules| && RuleOk(rules[i])
    requires sets == before + CompileFunctions(rules[i].functions, rules[i].Target())
    requires Emitted(sets, RulesAtoms(rules[..i]) + FunctionsAtoms(rules[i].functions), domainSets)
    ensures Added(rules, i + 1, sets, domainSets)
  {
    NextRule(rules, i);
  }

  lemma AllAdded(rules: seq<Rule>, sets: seq<MatchSet>, domainSets: seq<(nat, nat)>)
    requires Added(rules, |rules|, sets, domainSets)
    ensures RulesOk(rules) && sets == RuleSets(rules) && Emitted(sets, RulesAtoms(rules), domainSets)
  {
    assert rules[..|rules|] == rules;
  }

  /** The loop over the rules. */
  method AddRules(rules: seq<Rule>) returns (ok: bool, sets: seq<MatchSet>, domainSets: seq<(nat, nat)>)
    requires forall i :: 0 <= i < |rules| ==> rules[i].Target() < LOGICAL_OR
    ensures ok <==> RulesOk(rules)
    ensures ok ==> sets == RuleSets(rules) && Emitted(sets, RulesAtoms(rules), domainSets)
  {
    sets, domainSets := [], [];
    for i := 0 to |rules|
      invariant Added(rules, i, sets, domainSets)
    {
      ghost var before, ds := sets, domainSets;
      var okR;
      okR, sets, domainSets := AddRule(sets, domainSets, RulesAtoms(rules[..i]), rules[i]);
      if !okR { return false, sets, domainSets; }
      AddedNext(rules, i, before, ds, sets, domainSets);
    }
    AllAdded(rules, sets, domainSets);
    ok := true;
  }

  /** What building gives: nothing to build, an error, or the sets and the domain sets beside them. */
  datatype Built = NoMatcher | Rejected | Matcher(sets: seq<MatchSet>, domainSets: seq<(nat, nat)>)

  /**
    `build_request_matcher`: all rules, then the fallback.  `configured` rules were
    given; `expanded` is what expanding their geodata makes of them, None on an error.
  */
  method BuildRequestMatcher(configured: nat, expanded: Option<seq<Rule>>, fallback: Option<byte>) returns (b: Built)
    requires expanded.Some? ==> forall i :: 0 <= i < |expanded.value| ==> expanded.value[i].Target() < LOGICAL_OR
    ensures b.NoMatcher? <==> configured == 0
    ensures b.Matcher? <==>
      configured > 0 && expanded.Some? && fallback.Some? && RulesOk(expanded.value)
    ensures b.Matcher? ==>
      b.sets == CompileRules(expanded.value, fallback.value) && Registered(RulesAtoms(expanded.value), b.domainSets)
  {
    if configured == 0 { return NoMatcher; }
    if expanded.None? { return Rejected; }
    var ok, sets, domainSets := AddRules(expanded.value);
    if !ok || fallback.None? { return Rejected; }
    AllRules(expanded.value, fallback.value);
    return Matcher(sets + [MatchSet(Fallback, 0, false, fallback.value)], domainSets);
  }

  /* ----- end to end ----- */

  /** The domain matcher's answer for this query: bit `b` is set exactly when the pattern set registered under `b` matches. */
  ghost predicate BitmapFor(bitmap: seq<nat>, domainSets: seq<(nat, nat)>, q: Query) {
    forall i: nat, p: nat :: (i, p) in domainSets ==> (BitmapHas(bitmap, i) <==> p in q.matched)
  }

  /** A set tests what its atom says. */
  predicate Tests(m: MatchSet, a: Atom) {
    match a
    case NameAtom(_) => m.kind == DomainSet
    case TypeAtom(v) => m.kind == QType && m.value == v
  }

  ghost predicate AllTest(sets: seq<MatchSet>, atoms: seq<Atom>) {
    |atoms| <= |sets| && forall i :: 0 <= i < |atoms| ==> Tests(sets[i], atoms[i])
  }

  lemma AllTestConcat(s: seq<MatchSet>, a: seq<Atom>, t: seq<MatchSet>, b: seq<Atom>)
    requires AllTest(s, a) && |s| == |a| && AllTest(t, b)
    ensures AllTest(s + t, a + b)
  {
  }

  lemma HitsConcat(a: seq<Atom>, b: seq<Atom>, q: Query)
    ensures HitsOf(a + b, q) == HitsOf(a, q) + HitsOf(b, q)
  {
  }

  lemma {:induction false} FunctionsTest(fs: seq<Function>, target: byte, q: Query)
    ensures |CompileFunctions(fs, target)| == |FunctionsAtoms(fs)|
    ensures AllTest(CompileFunctions(fs, target), FunctionsAtoms(fs))
    ensures FunctionsHits(fs, q) == HitsOf(FunctionsAtoms(fs), q)
    decreases |fs|
  {
    if fs != [] {
      FunctionsTest(fs[1..], target, q);
      var a := FunctionAtoms(fs[0].groups);
      var last := if |fs| == 1 then target else LOGICAL_AND;
      AllTestConcat(CompileAtoms(a, fs[0].not, last), a, CompileFunctions(fs[1..], target), FunctionsAtoms(fs[1..]));
      HitsConcat(a, FunctionsAtoms(fs[1..]), q);
    }
  }

  lemma {:induction false} RulesTest(rules: seq<Rule>, fallback: byte, q: Query)
    ensures |CompileRules(rules, fallback)| == |RulesAtoms(rules)| + 1
    ensures AllTest(CompileRules(rules, fallback), RulesAtoms(rules))
    ensures CompileRules(rules, fallback)[|RulesAtoms(rules)|].kind == Fallback
    ensures RulesHits(rules, q) == HitsOf(RulesAtoms(rules), q) + [true]
    decreases |rules|
  {
    if rules != [] {
      RulesTest(rules[1..], fallback, q);
      FunctionsTest(rules[0].functions, rules[0].Target(), q);
      AllTestConcat(CompileFunctions(rules[0].functions, rules[0].Target()), FunctionsAtoms(rules[0].functions),
                    CompileRules(rules[1..], fallback), RulesAtoms(rules[1..]));
      HitsConcat(FunctionsAtoms(rules[0].functions), RulesAtoms(rules[1..]), q);
    }
  }

  lemma HitIs(m: MatchSet, i: nat, atoms: seq<Atom>, domainSets: seq<(nat, nat)>, bitmap: seq<nat>, q: Query)
    requires i < |atoms| && Tests(m, atoms[i]) && Registered(atoms, domainSets) && BitmapFor(bitmap, domainSets, q)
    ensures RequestHit(m, i, q.qtype, bitmap) == AtomMatches(atoms[i], q)
  {
    if atoms[i].NameAtom? { assert (i, atoms[i].patterns) in domainSets; }
  }

  /** Sets that test the atoms, and the fallback after them. */
  ghost predicate TestThenFallback(sets: seq<MatchSet>, atoms: seq<Atom>) {
    |sets| == |atoms| + 1 && AllTest(sets, atoms) && sets[|atoms|].kind == Fallback
  }

  lemma HitsAre(sets: seq<MatchSet>, atoms: seq<Atom>, domainSets: seq<(nat, nat)>, bitmap: seq<nat>, q: Query)
    requires TestThenFallback(sets, atoms) && Registered(atoms, domainSets) && BitmapFor(bitmap, domainSets, q)
    ensures RequestHits(sets, q.qtype, bitmap) == HitsOf(atoms, q) + [true]
  {
    forall i | 0 <= i < |sets| ensures RequestHit(sets[i], i, q.qtype, bitmap) == (HitsOf(atoms, q) + [true])[i] {
      if i < |atoms| {
        assert Tests(sets[i], atoms[i]);
        HitIs(sets[i], i, atoms, domainSets, bitmap, q);
      }
    }
  }

  lemma RequestHitsAre(rules: seq<Rule>, fallback: byte, domainSets: seq<(nat, nat)>, bitmap: seq<nat>, q: Query)
    requires Registered(RulesAtoms(rules), domainSets) && BitmapFor(bitmap, domainSets, q)
    ensures RequestHits(CompileRules(rules, fallback), q.qtype, bitmap) == RulesHits(rules, q)
  {
    RulesTest(rules, fallback, q);
    HitsAre(CompileRules(rules, fallback), RulesAtoms(rules), domainSets, bitmap, q);
  }

  /** Whatever the matcher answers on the compiled rules, for any query, is what the rules mean. */
  lemma CompiledRequestAnswer(rules: seq<Rule>, fallback: byte, domainSets: seq<(nat, nat)>, bitmap: seq<nat>, q: Query,
                              r: Option<byte>)
    requires fallback < LOGICAL_OR && RulesOk(rules)
    requires Registered(RulesAtoms(rules), domainSets) && BitmapFor(bitmap, domainSets, q)
    requires var sets := CompileRules(rules, fallback); Answers(sets, RequestHits(sets, q.qtype, bitmap), r)
    ensures r == Some(Meaning(rules, fallback, q))
  {
    RequestHitsAre(rules, fallback, domainSets, bitmap, q);
    CompiledMeaning(rules, fallback, q);
    AnswerUnique(CompileRules(rules, fallback), RulesHits(rules, q), r, Some(Meaning(rules, fallback, q)));
  }
}
