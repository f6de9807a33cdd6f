/**
  The upstream resolver (crates/dae-dns/src/upstream.rs): any number of callers
  share one cached upstream; at most one of them refreshes it while the others
  wait, and a failed refresh falls back to the stale value.

  `Enter` and `Finish` are the two critical sections of `get_upstream`; the class
  runs them on mutable fields, and the step system interleaves them over callers.
*/
module Upstream {
  import opened Bytes

  const U64_MAX := 0xFFFF_FFFF_FFFF_FFFF
  const I64_MAX := 0x7FFF_FFFF_FFFF_FFFF
  const I64_MIN := -0x8000_0000_0000_0000

  function SaturatingInc(n: nat): nat { if n < U64_MAX then n + 1 else n }

  function SaturatingAdd(a: int, b: int): int {
    if a + b > I64_MAX then I64_MAX else if a + b < I64_MIN then I64_MIN else a + b
  }

  /** Upstream values are opaque; equality is all the protocol needs. */
  type Server = nat

  datatype Result = Ok(server: Server) | Err

  datatype Intervals = Intervals(refresh: int, retry: int)

  datatype State = State(upstream: Option<Server>, init: bool, refreshing: bool, nextRefresh: int,
                         successes: nat, failures: nat, staleReuses: nat)

  const NEW_STATE := State(None, false, false, 0, 0, 0, 0)

  /** What the first critical section decides. */
  datatype Entry = Cached(result: Result) | Wait | Begin(stale: Option<Server>)

  function OrUnavailable(upstream: Option<Server>): Result {
    if upstream.Some? then Ok(upstream.value) else Err
  }

  function Enter(s: State, now: int): (State, Entry) {
    if s.init && now < s.nextRefresh then (s, Cached(OrUnavailable(s.upstream)))
    else if s.refreshing then (s, Wait)
    else (s.(refreshing := true), Begin(s.upstream))
  }

  /** The second critical section, after the callbacks have produced `outcome`. */
  function Finish(s: State, iv: Intervals, now: int, stale: Option<Server>, outcome: Result): (State, Result) {
    match outcome
    case Ok(server) =>
      (s.(refreshing := false, successes := SaturatingInc(s.successes), upstream := Some(server),
          init := true, nextRefresh := SaturatingAdd(now, iv.refresh)), Ok(server))
    case Err =>
      var failed := s.(refreshing := false, failures := SaturatingInc(s.failures),
                       init := true, nextRefresh := SaturatingAdd(now, iv.retry));
      if stale.Some? then (failed.(staleReuses := SaturatingInc(failed.staleReuses)), Ok(stale.value))
      else (failed, Err)
  }

  /** The guarded fields, updated one by one as the program does. */
  class ResolverState {
    var upstream: Option<Server>
    var init: bool
    var refreshing: bool
    var nextRefresh: int
    var successes: nat
    var failures: nat
    var staleReuses: nat

    function Value(): State
      reads this
    {
      State(upstream, init, refreshing, nextRefresh, successes, failures, staleReuses)
    }

    constructor ()
      ensures Value() == NEW_STATE
    {
      upstream, init, refreshing, nextRefresh := None, false, false, 0;
      successes, failures, staleReuses := 0, 0, 0;
    }

    method EnterSection(now: int) returns (e: Entry)
      modifies this
      ensures (Value(), e) == Enter(old(Value()), now)
    {
      if init && now < nextRefresh {
        return Cached(if upstream.Some? then Ok(upstream.value) else Err);
      }
      if refreshing { return Wait; }
      refreshing := true;
      return Begin(upstream);
    }

    method FinishSection(iv: Intervals, now: int, stale: Option<Server>, outcome: Result) returns (r: Result)
      modifies this
      ensures (Value(), r) == Finish(old(Value()), iv, now, stale, outcome)
    {
      refreshing := false;
      match outcome {
        case Ok(server) =>
          successes := SaturatingInc(successes);
          upstream := Some(server);
          init := true;
          nextRefresh := SaturatingAdd(now, iv.refresh);
          return Ok(server);
        case Err =>
          failures := SaturatingInc(failures);
          if stale.Some? {
            staleReuses := SaturatingInc(staleReuses);
            init := true;
            nextRefresh := SaturatingAdd(now, iv.retry);
            return Ok(stale.value);
          }
          init := true;
          nextRefresh := SaturatingAdd(now, iv.retry);
          return Err;
      }
    }
  }

  /* ----- the step system ----- */

  /** Where one caller of `get_upstream` stands. */
  datatype Phase = Waiting(now: int) | Refreshing(now: int, stale: Option<Server>)

  /** A refresh that ran to completion: what the callbacks produced and what its caller got. */
  datatype Completion = Completion(now: int, outcome: Result, returned: Result)

  datatype Via = FromCache | FromTimeout

  /** A caller that returned without refreshing, after `seen` refreshes had completed. */
  datatype Reply = Reply(seen: nat, via: Via, result: Result)

  /** Callers in flight, and the history of everything returned so far. */
  datatype World = World(state: State, callers: map<nat, Phase>, completions: seq<Completion>, replies: seq<Reply>)

  const NEW_WORLD := World(NEW_STATE, map[], [], [])

  /** One pass of the loop by caller `id` with clock value `now`. */
  function Turn(w: World, id: nat, now: int): World {
    match Enter(w.state, now)
    case (s, Cached(r)) =>
      w.(state := s, callers := w.callers - {id}, replies := w.replies + [Reply(|w.completions|, FromCache, r)])
    case (s, Wait) => w.(state := s, callers := w.callers[id := Waiting(now)])
    case (s, Begin(stale)) => w.(state := s, callers := w.callers[id := Refreshing(now, stale)])
  }

  datatype Event = Call(now: int) | Wake | Timeout | Complete(outcome: Result)

  /** Caller `id` takes one atomic step. */
  ghost predicate Step(iv: Intervals, w: World, id: nat, e: Event, w': World) {
    match e
    case Call(now) => id !in w.callers && w' == Turn(w, id, now)
    case Wake => id in w.callers && w.callers[id].Waiting? && w' == Turn(w, id, w.callers[id].now)
    case Timeout =>
      && id in w.callers && w.callers[id].Waiting? && w.state.refreshing
      && w' == w.(callers := w.callers - {id}, replies := w.replies + [Reply(|w.completions|, FromTimeout, Err)])
    case Complete(outcome) =>
      && id in w.callers && w.callers[id].Refreshing?
      && var p := w.callers[id];
         var (s, r) := Finish(w.state, iv, p.now, p.stale, outcome);
         w' == w.(state := s, callers := w.callers - {id},
                  completions := w.completions + [Completion(p.now, outcome, r)])
  }

  ghost predicate Next(iv: Intervals, w: World, w': World) {
    exists id, e :: Step(iv, w, id, e, w')
  }

  ghost predicate IsRun(iv: Intervals, run: seq<World>) {
    && run != [] && run[0] == NEW_WORLD
    && forall i :: 0 <= i < |run| - 1 ==> Next(iv, run[i], run[i + 1])
  }

  /* ----- what histories mean ----- */

  /** The server of the last successful refresh. */
  function LastSuccess(h: seq<Completion>): Option<Server> {
    if h == [] then None
    else if h[|h| - 1].outcome.Ok? then Some(h[|h| - 1].outcome.server)
    else LastSuccess(h[..|h| - 1])
  }

  function CountSuccesses(h: seq<Completion>): (n: nat)
    ensures n <= |h|
  {
    if h == [] then 0 else CountSuccesses(h[..|h| - 1]) + if h[|h| - 1].outcome.Ok? then 1 else 0
  }

  /** Failed refreshes that had an earlier success to fall back on. */
  function CountStale(h: seq<Completion>): nat {
    if h == [] then 0
    else CountStale(h[..|h| - 1])
         + if h[|h| - 1].outcome.Err? && LastSuccess(h[..|h| - 1]).Some? then 1 else 0
  }

  function Saturated(n: nat): nat { if n < U64_MAX then n else U64_MAX }

  /** A refresh returns its own server, or the last good one, or an error if there never was one. */
  ghost predicate RightReturn(h: seq<Completion>, k: nat)
    requires k < |h|
  {
    h[k].returned == if h[k].outcome.Ok? then h[k].outcome else OrUnavailable(LastSuccess(h[..k]))
  }

  ghost predicate RightReply(h: seq<Completion>, r: Reply) {
    && r.seen <= |h|
    && r.result == if r.via.FromCache? then OrUnavailable(LastSuccess(h[..r.seen])) else Err
  }

  /** When the next refresh may start, given the last one. */
  function Due(iv: Intervals, h: seq<Completion>): int {
    if h == [] then 0
    else
      var last := h[|h| - 1];
      SaturatingAdd(last.now, if last.outcome.Ok? then iv.refresh else iv.retry)
  }

  predicate IsRefreshing(w: World, id: nat) {
    id in w.callers && w.callers[id].Refreshing?
  }

  /** At most one refresh is in flight, and what it would fall back on is the value stored now. */
  ghost predicate SingleFlight(w: World) {
    && (forall a, b :: IsRefreshing(w, a) && IsRefreshing(w, b) ==> a == b)
    && (w.state.refreshing <==> exists a :: IsRefreshing(w, a))
    && (forall a :: IsRefreshing(w, a) ==> w.callers[a].stale == w.state.upstream)
  }

  /** The shared state is a function of the refreshes completed so far. */
  ghost predicate StateIsHistory(iv: Intervals, s: State, h: seq<Completion>) {
    && s.upstream == LastSuccess(h)
    && s.init == (h != [])
    && s.nextRefresh == Due(iv, h)
    && s.successes == Saturated(CountSuccesses(h))
    && s.failures == Saturated(|h| - CountSuccesses(h))
    && s.staleReuses == Saturated(CountStale(h))
  }

  /** Everything returned so far was right. */
  ghost predicate RightHistory(w: World) {
    && (forall k :: 0 <= k < |w.completions| ==> RightReturn(w.completions, k))
    && (forall k :: 0 <= k < |w.replies| ==> RightReply(w.completions, w.replies[k]))
  }

  ghost predicate Safe(iv: Intervals, w: World) {
    SingleFlight(w) && StateIsHistory(iv, w.state, w.completions) && RightHistory(w)
  }

  /* ----- every step keeps it ----- */

  lemma TurnSafe(iv: Intervals, w: World, id: nat, now: int)
    requires Safe(iv, w) && !IsRefreshing(w, id)
    ensures Safe(iv, Turn(w, id, now))
  {
    var w' := Turn(w, id, now);
    assert w.completions[..|w.completions|] == w.completions;
    assert forall a :: a != id ==> (IsRefreshing(w', a) <==> IsRefreshing(w, a));
    if Enter(w.state, now).1.Begin? {
      assert IsRefreshing(w', id);
    } else {
      assert forall a :: IsRefreshing(w', a) <==> IsRefreshing(w, a);
    }
  }

  lemma TimeoutSafe(iv: Intervals, w: World, id: nat, w': World)
    requires Safe(iv, w) && Step(iv, w, id, Timeout, w')
    ensures Safe(iv, w')
  {
    assert forall a :: IsRefreshing(w', a) <==> IsRefreshing(w, a);
  }

  lemma HistoryGrows(h: seq<Completion>, c: Completion)
    ensures LastSuccess(h + [c]) == if c.outcome.Ok? then Some(c.outcome.server) else LastSuccess(h)
    ensures CountSuccesses(h + [c]) == CountSuccesses(h) + if c.outcome.Ok? then 1 else 0
    ensures CountStale(h + [c]) == CountStale(h) + if c.outcome.Err? && LastSuccess(h).Some? then 1 else 0
    ensures forall k :: 0 <= k <= |h| ==> (h + [c])[..k] == h[..k]
  {
    assert (h + [c])[..|h|] == h;
  }

  /** The state after a refresh is that of the longer history, and the refresh returned what it should. */
  lemma FinishIsHistory(iv: Intervals, s: State, h: seq<Completion>, now: int, outcome: Result)
    requires StateIsHistory(iv, s, h)
    ensures var (s', r) := Finish(s, iv, now, s.upstream, outcome);
            var h' := h + [Completion(now, outcome, r)];
            StateIsHistory(iv, s', h') && RightReturn(h', |h|) && !s'.refreshing
  {
    var r := Finish(s, iv, now, s.upstream, outcome).1;
    HistoryGrows(h, Completion(now, outcome, r));
  }

  lemma HistoryStaysRight(w: World, c: Completion)
    requires RightHistory(w) && RightReturn(w.completions + [c], |w.completions|)
    ensures RightHistory(w.(completions := w.completions + [c]))
  {
    var h, h' := w.completions, w.completions + [c];
    HistoryGrows(h, c);
    forall k | 0 <= k < |h'| ensures RightReturn(h', k) {
      if k < |h| { assert RightReturn(h, k); }
    }
    forall k | 0 <= k < |w.replies| ensures RightReply(h', w.replies[k]) {
      assert RightReply(h, w.replies[k]);
    }
  }

  lemma FlightEnds(w: World, id: nat, s: State)
    requires SingleFlight(w) && IsRefreshing(w, id) && !s.refreshing
    ensures SingleFlight(w.(state := s, callers := w.callers - {id}))
  {
    var w' := w.(state := s, callers := w.callers - {id});
    forall a ensures !IsRefreshing(w', a) {
      assert IsRefreshing(w', a) ==> IsRefreshing(w, a) && a != id;
    }
  }

  lemma CompleteSafe(iv: Intervals, w: World, id: nat, outcome: Result, w': World)
    requires Safe(iv, w) && Step(iv, w, id, Complete(outcome), w')
    ensures Safe(iv, w')
  {
    var p := w.callers[id];
    assert IsRefreshing(w, id);
    var (s, r) := Finish(w.state, iv, p.now, p.stale, outcome);
    FinishIsHistory(iv, w.state, w.completions, p.now, outcome);
    HistoryStaysRight(w, Completion(p.now, outcome, r));
    FlightEnds(w, id, s);
    SameFlight(w.(state := s, callers := w.callers - {id}), w');
  }

  /** Single flight is about the callers and the state alone. */
  lemma SameFlight(w: World, w': World)
    requires SingleFlight(w) && w'.callers == w.callers && w'.state == w.state
    ensures SingleFlight(w')
  {
    assert forall a :: IsRefreshing(w', a) <==> IsRefreshing(w, a);
  }


  lemma StepSafe(iv: Intervals, w: World, id: nat, e: Event, w': World)
    requires Safe(iv, w) && Step(iv, w, id, e, w')
    ensures Safe(iv, w')
  {
    match e {
      case Call(now) => TurnSafe(iv, w, id, now);
      case Wake => TurnSafe(iv, w, id, w.callers[id].now);
      case Timeout => TimeoutSafe(iv, w, id, w');
      case Complete(outcome) => CompleteSafe(iv, w, id, outcome, w');
    }
  }

  /** Every world of every run, over any number of callers and any interleaving, is safe. */
  lemma {:induction false} RunSafe(iv: Intervals, run: seq<World>, i: nat)
    requires IsRun(iv, run) && i < |run|
    ensures Safe(iv, run[i])
    decreases i
  {
    if i > 0 {
      RunSafe(iv, run, i - 1);
      assert Next(iv, run[i - 1], run[i - 1 + 1]);
      var id, e :| Step(iv, run[i - 1], id, e, run[i]);
      StepSafe(iv, run[i - 1], id, e, run[i]);
    }
  }

  /* ----- consequences ----- */

  lemma {:induction false} SuccessIsKept(h: seq<Completion>, k: nat, n: nat)
    requires k < n <= |h| && h[k].outcome.Ok?
    ensures LastSuccess(h[..n]).Some?
    decreases n
  {
    var g := h[..n];
    assert g[..n - 1] == h[..n - 1];
    if !g[n - 1].outcome.Ok? {
      SuccessIsKept(h, k, n - 1);
    }
  }

  /** After the first success the upstream is never lost; only a timed-out wait can still return an error. */
  lemma NeverLost(iv: Intervals, run: seq<World>, i: nat, k: nat)
    requires IsRun(iv, run) && i < |run|
    requires k < |run[i].completions| && run[i].completions[k].outcome.Ok?
    ensures run[i].state.upstream.Some?
    ensures forall m :: k <= m < |run[i].completions| ==> run[i].completions[m].returned.Ok?
    ensures forall r :: r in run[i].replies && r.seen > k && r.via.FromCache? ==> r.result.Ok?
  {
    RunSafe(iv, run, i);
    var w := run[i];
    assert w.completions[..|w.completions|] == w.completions;
    SuccessIsKept(w.completions, k, |w.completions|);
    forall m | k <= m < |w.completions| ensures w.completions[m].returned.Ok? {
      assert RightReturn(w.completions, m);
      if m > k { SuccessIsKept(w.completions, k, m); }
    }
    forall r | r in w.replies && r.seen > k && r.via.FromCache? ensures r.result.Ok? {
      var j :| 0 <= j < |w.replies| && w.replies[j] == r;
      assert RightReply(w.completions, w.replies[j]);
      SuccessIsKept(w.completions, k, r.seen);
    }
  }

  lemma {:induction false} StaleAtMostFailures(h: seq<Completion>)
    ensures CountStale(h) <= |h| - CountSuccesses(h)
    decreases |h|
  {
    if h != [] { StaleAtMostFailures(h[..|h| - 1]); }
  }

  /** The counters add up to the completed refreshes, short of 64-bit saturation. */
  lemma CountersAddUp(iv: Intervals, run: seq<World>, i: nat)
    requires IsRun(iv, run) && i < |run|
    ensures run[i].state.staleReuses <= run[i].state.failures
    ensures |run[i].completions| <= U64_MAX ==>
              run[i].state.successes + run[i].state.failures == |run[i].completions|
  {
    RunSafe(iv, run, i);
    StaleAtMostFailures(run[i].completions);
  }

  /** A refresh starts only when the last one is due for renewal by its caller's clock. */
  lemma RefreshOnlyWhenDue(iv: Intervals, run: seq<World>, i: nat, id: nat)
    requires IsRun(iv, run) && i + 1 < |run|
    requires !IsRefreshing(run[i], id) && IsRefreshing(run[i + 1], id)
    ensures run[i].completions == [] || run[i + 1].callers[id].now >= Due(iv, run[i].completions)
    ensures !run[i].state.refreshing
  {
    RunSafe(iv, run, i);
    assert Next(iv, run[i], run[i + 1]);
    var a, e :| Step(iv, run[i], a, e, run[i + 1]);
  }

  /** A refresh in flight can always complete, and completing it lets waiting callers proceed. */
  lemma RefreshCanComplete(iv: Intervals, run: seq<World>, i: nat, outcome: Result)
    requires IsRun(iv, run) && i < |run| && run[i].state.refreshing
    ensures exists id, w' :: Step(iv, run[i], id, Complete(outcome), w') && !w'.state.refreshing
  {
    RunSafe(iv, run, i);
    var w := run[i];
    var id :| IsRefreshing(w, id);
    var p := w.callers[id];
    var (s, r) := Finish(w.state, iv, p.now, p.stale, outcome);
    var w' := w.(state := s, callers := w.callers - {id},
                 completions := w.completions + [Completion(p.now, outcome, r)]);
    assert Step(iv, w, id, Complete(outcome), w');
  }
}
