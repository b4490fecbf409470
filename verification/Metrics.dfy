/** Request metrics: each finished request bumps four counters in four separately locked steps. */
module Metrics {
  import opened Wrappers
  import Decimal

  type Counters = map<string, nat>

  function ValueOf(counters: Counters, name: string): nat {
    if name in counters then counters[name] else 0
  }

  function Incremented(counters: Counters, name: string, delta: nat): Counters {
    counters[name := ValueOf(counters, name) + delta]
  }

  class MetricsRegistry {
    var counters: Counters

    constructor ()
      ensures counters == map[]
    {
      counters := map[];
    }

    method Increment(name: string, delta: nat)
      modifies this
      ensures counters == Incremented(old(counters), name, delta)
    {
      if name !in counters {
        counters := counters[name := 0];
      }
      counters := counters[name := counters[name] + delta];
    }
  }

  // -------------------------------------------------------------------------------------------
  // Counter names
  // -------------------------------------------------------------------------------------------

  predicate IsAlnum(ch: char) {
    '0' <= ch <= '9' || 'A' <= ch <= 'Z' || 'a' <= ch <= 'z'
  }

  function MetricSafe(s: string): (r: string)
    ensures |r| == |s|
    ensures forall i | 0 <= i < |s| ::
              r[i] == if '0' <= s[i] <= '9' || 'A' <= s[i] <= 'Z' || 'a' <= s[i] <= 'z' then s[i] else '_'
  {
    if |s| == 0 then "" else [if IsAlnum(s[0]) then s[0] else '_'] + MetricSafe(s[1..])
  }

  method ToMetricSafe(value: array<char>)
    modifies value
    ensures value[..] == MetricSafe(old(value[..]))
  {
    for i := 0 to value.Length
      invariant forall k | 0 <= k < i :: value[k] == if IsAlnum(old(value[k])) then old(value[k]) else '_'
      invariant forall k | i <= k < value.Length :: value[k] == old(value[k])
    {
      if !IsAlnum(value[i]) {
        value[i] := '_';
      }
    }
  }

  const TOTAL: string := "gateway_requests_total"
  const ROUTE: string := "gateway_requests_route_"
  const STATUS: string := "gateway_requests_status_"
  const DOWNSTREAM: string := "gateway_downstream_"

  function RouteName(path: string): string {
    ROUTE + MetricSafe(path) + "_total"
  }

  function StatusName(code: int): string {
    STATUS + Decimal.ToString(code) + "_total"
  }

  function DownstreamName(service: string): string {
    DOWNSTREAM + MetricSafe(service) + "_total"
  }

  datatype Family = Total | Route | Status | Downstream | Other

  /** The family a counter belongs to, told from its name alone. */
  function FamilyOf(name: string): Family {
    if name == TOTAL then Total
    else if StartsWith(name, ROUTE) then Route
    else if StartsWith(name, STATUS) then Status
    else if StartsWith(name, DOWNSTREAM) then Downstream
    else Other
  }

  /** No path, status code or service can make a counter of one family land in another. */
  lemma FamiliesAreDisjoint(path: string, code: int, service: string)
    ensures FamilyOf(TOTAL) == Total
    ensures FamilyOf(RouteName(path)) == Route
    ensures FamilyOf(StatusName(code)) == Status
    ensures FamilyOf(DownstreamName(service)) == Downstream
  {
    var route, status, downstream := RouteName(path), StatusName(code), DownstreamName(service);
    assert route[..|ROUTE|] == ROUTE && status[..|STATUS|] == STATUS && downstream[..|DOWNSTREAM|] == DOWNSTREAM;
    assert ROUTE[17] == 'r' && STATUS[17] == 's' && TOTAL[17] == 't';
    assert route[17] == 'r' && status[17] == 's';
    assert ROUTE[8] == 'r' && STATUS[8] == 'r' && TOTAL[8] == 'r' && DOWNSTREAM[8] == 'd';
    assert downstream[8] == 'd';
    assert route[..|ROUTE|][8] == 'r' && status[..|ROUTE|][17] == 's';
    FirstCharacters(status, ROUTE, 17);
    FirstCharacters(downstream, ROUTE, 8);
    FirstCharacters(downstream, STATUS, 8);
  }

  lemma FirstCharacters(s: string, prefix: string, k: nat)
    requires k < |prefix| && k < |s| && s[k] != prefix[k]
    ensures !StartsWith(s, prefix)
  {
    assert |prefix| <= |s| ==> s[..|prefix|][k] == s[k];
  }

  // -------------------------------------------------------------------------------------------
  // Sums over a family
  // -------------------------------------------------------------------------------------------

  ghost function SumOver(counters: Counters, names: set<string>): nat
    requires names <= counters.Keys
  {
    if names == {} then 0
    else
      var name :| name in names;
      counters[name] + SumOver(counters, names - {name})
  }

  lemma {:induction false} SumWithout(counters: Counters, names: set<string>, name: string)
    requires names <= counters.Keys && name in names
    ensures SumOver(counters, names) == counters[name] + SumOver(counters, names - {name})
    decreases names
  {
    var picked :| picked in names && SumOver(counters, names) == counters[picked] + SumOver(counters, names - {picked});
    if picked != name {
      SumWithout(counters, names - {picked}, name);
      SumWithout(counters, names - {name}, picked);
      assert names - {picked} - {name} == names - {name} - {picked};
    }
  }

  lemma {:induction false} SumUnaffected(counters: Counters, other: Counters, names: set<string>)
    requires names <= counters.Keys && names <= other.Keys
    requires forall name | name in names :: counters[name] == other[name]
    ensures SumOver(counters, names) == SumOver(other, names)
    decreases names
  {
    if names != {} {
      var name :| name in names;
      SumWithout(counters, names, name);
      SumWithout(other, names, name);
      SumUnaffected(counters, other, names - {name});
    }
  }

  function NamesOf(counters: Counters, family: Family): set<string> {
    set name | name in counters && FamilyOf(name) == family
  }

  /** The sum of all counters of a family. */
  ghost function FamilySum(counters: Counters, family: Family): nat {
    SumOver(counters, NamesOf(counters, family))
  }

  lemma IncrementAddsToItsFamily(counters: Counters, name: string, delta: nat, family: Family)
    ensures FamilySum(Incremented(counters, name, delta), family)
         == FamilySum(counters, family) + (if FamilyOf(name) == family then delta else 0)
  {
    hide FamilyOf;
    var next := Incremented(counters, name, delta);
    var before, after := NamesOf(counters, family), NamesOf(next, family);
    if FamilyOf(name) == family {
      SumWithout(next, after, name);
      SumUnaffected(counters, next, before - {name});
      assert after - {name} == before - {name};
      if name in before {
        SumWithout(counters, before, name);
      } else {
        assert before - {name} == before;
      }
    } else {
      assert after == before;
      SumUnaffected(counters, next, before);
    }
  }

  // -------------------------------------------------------------------------------------------
  // Finishing requests
  // -------------------------------------------------------------------------------------------

  /** A request's labels and how many of its four steps are done; an empty service has no fourth step. */
  datatype Request = Request(path: string, statusCode: int, service: string, step: nat) {
    function Steps(): nat {
      if service == "" then 3 else 4
    }

    predicate Finished() {
      step == Steps()
    }
  }

  datatype State = State(counters: Counters, requests: seq<Request>)

  datatype Action =
    | Begin(path: string, statusCode: int, service: string)
    | Advance(request: nat)

  predicate Enabled(s: State, action: Action) {
    action.Advance? ==> action.request < |s.requests| && !s.requests[action.request].Finished()
                        && s.requests[action.request].step < 4
  }

  /** The counter that the request's next step increments. */
  function NextName(r: Request): string {
    if r.step == 0 then TOTAL
    else if r.step == 1 then RouteName(r.path)
    else if r.step == 2 then StatusName(r.statusCode)
    else DownstreamName(r.service)
  }

  function Step(s: State, action: Action): State
    requires Enabled(s, action)
  {
    match action
    case Begin(path, statusCode, service) => s.(requests := s.requests + [Request(path, statusCode, service, 0)])
    case Advance(i) =>
      var r := s.requests[i];
      State(Incremented(s.counters, NextName(r), 1), s.requests[i := r.(step := r.step + 1)])
  }

  ghost predicate IsRun(states: seq<State>, trace: seq<Action>) {
    && |states| == |trace| + 1
    && states[0] == State(map[], [])
    && forall n | 0 <= n < |trace| :: Enabled(states[n], trace[n]) && states[n + 1] == Step(states[n], trace[n])
  }

  /** Requests among the first `n` that have taken more than `step` steps. */
  function Past(requests: seq<Request>, step: nat, n: nat): nat
    requires n <= |requests|
  {
    if n == 0 then 0 else Past(requests, step, n - 1) + (if requests[n - 1].step > step then 1 else 0)
  }

  lemma {:induction false} PastOfUpdate(requests: seq<Request>, i: nat, r: Request, step: nat, n: nat)
    requires i < |requests| && n <= |requests|
    ensures Past(requests[i := r], step, n) + (if i < n && requests[i].step > step then 1 else 0)
         == Past(requests, step, n) + (if i < n && r.step > step then 1 else 0)
  {
    if n > 0 {
      PastOfUpdate(requests, i, r, step, n - 1);
    }
  }

  lemma {:induction false} PastOfAppend(requests: seq<Request>, r: Request, step: nat, n: nat)
    requires n <= |requests|
    ensures Past(requests + [r], step, n) == Past(requests, step, n)
  {
    if n > 0 {
      PastOfAppend(requests, r, step, n - 1);
    }
  }

  function FamilyAt(step: nat): Family {
    if step == 0 then Total
    else if step == 1 then Route
    else if step == 2 then Status
    else if step == 3 then Downstream
    else Other
  }

  /** Each family's sum counts the requests that are past the family's step. */
  ghost predicate SumsCountRequests(s: State) {
    forall step: nat | step < 4 :: FamilySum(s.counters, FamilyAt(step)) == Past(s.requests, step, |s.requests|)
  }

  ghost predicate StepsInRange(s: State) {
    forall i | 0 <= i < |s.requests| :: s.requests[i].step <= s.requests[i].Steps()
  }

  lemma StepKeepsSums(s: State, action: Action, step: nat)
    requires Enabled(s, action) && SumsCountRequests(s) && step < 4
    ensures
      var next := Step(s, action);
      FamilySum(next.counters, FamilyAt(step)) == Past(next.requests, step, |next.requests|)
  {
    hide FamilyOf, RouteName, StatusName, DownstreamName, FamilySum, TOTAL;
    assert FamilySum(s.counters, FamilyAt(step)) == Past(s.requests, step, |s.requests|);
    match action
    case Begin(path, statusCode, service) =>
      PastOfAppend(s.requests, Request(path, statusCode, service, 0), step, |s.requests|);
    case Advance(i) =>
      var r := s.requests[i];
      FamiliesAreDisjoint(r.path, r.statusCode, r.service);
      IncrementAddsToItsFamily(s.counters, NextName(r), 1, FamilyAt(step));
      PastOfUpdate(s.requests, i, r.(step := r.step + 1), step, |s.requests|);
  }

  lemma {:induction false} RunKeepsSums(states: seq<State>, trace: seq<Action>, n: nat)
    requires IsRun(states, trace) && n <= |trace|
    ensures SumsCountRequests(states[n]) && StepsInRange(states[n])
  {
    if n > 0 {
      RunKeepsSums(states, trace, n - 1);
      assert Enabled(states[n - 1], trace[n - 1]);
      forall step: nat | step < 4
        ensures FamilySum(states[n].counters, FamilyAt(step)) == Past(states[n].requests, step, |states[n].requests|)
      {
        StepKeepsSums(states[n - 1], trace[n - 1], step);
      }
    }
  }

  /** The requests of a state are those of the run's Begins, in order, each with its own labels. */
  lemma {:induction false} RequestsAreBegun(states: seq<State>, trace: seq<Action>, n: nat, i: nat) returns (m: nat)
    requires IsRun(states, trace) && n <= |trace| && i < |states[n].requests|
    ensures m < n && |states[m].requests| == i
    ensures var r := states[n].requests[i]; trace[m] == Begin(r.path, r.statusCode, r.service)
  {
    var before := states[n - 1];
    assert Enabled(before, trace[n - 1]) && states[n] == Step(before, trace[n - 1]);
    if i < |before.requests| {
      m := RequestsAreBegun(states, trace, n - 1, i);
    } else {
      m := n - 1;
    }
  }

  lemma {:induction false} PastIsMonotone(requests: seq<Request>, n: nat)
    requires n <= |requests| && forall i | 0 <= i < n :: requests[i].step <= requests[i].Steps()
    ensures n >= Past(requests, 0, n) >= Past(requests, 1, n) >= Past(requests, 2, n) >= Past(requests, 3, n)
    ensures (forall i | 0 <= i < n :: requests[i].step == 0 || requests[i].Finished()) ==>
              Past(requests, 0, n) == Past(requests, 1, n) == Past(requests, 2, n)
  {
    if n > 0 {
      PastIsMonotone(requests, n - 1);
    }
  }

  /** At every step of every interleaving the request total is at least the route counters' sum, that is
    * at least the status counters' sum, and that is at least the downstream counters' sum; the first
    * three are equal whenever no request is in the middle of its steps. */
  lemma CountersAreConserved(states: seq<State>, trace: seq<Action>, n: nat)
    requires IsRun(states, trace) && n <= |trace|
    ensures
      var s := states[n];
      && FamilySum(s.counters, Total) >= FamilySum(s.counters, Route) >= FamilySum(s.counters, Status)
      && FamilySum(s.counters, Status) >= FamilySum(s.counters, Downstream)
      && ((forall i | 0 <= i < |s.requests| :: s.requests[i].step == 0 || s.requests[i].Finished()) ==>
            FamilySum(s.counters, Total) == FamilySum(s.counters, Route) == FamilySum(s.counters, Status))
  {
    RunKeepsSums(states, trace, n);
    var s := states[n];
    PastIsMonotone(s.requests, |s.requests|);
    assert FamilyAt(0) == Total && FamilyAt(1) == Route && FamilyAt(2) == Status && FamilyAt(3) == Downstream;
  }

  // -------------------------------------------------------------------------------------------
  // What each single counter counts
  // -------------------------------------------------------------------------------------------

  /** Whether the steps that a request has taken went to this counter. */
  predicate Adds(r: Request, name: string) {
    || (r.step > 0 && name == TOTAL)
    || (r.step > 1 && name == RouteName(r.path))
    || (r.step > 2 && name == StatusName(r.statusCode))
    || (r.step > 3 && name == DownstreamName(r.service))
  }

  function Adding(requests: seq<Request>, name: string): set<nat> {
    set i: nat | i < |requests| && Adds(requests[i], name)
  }

  lemma NextStepAdds(r: Request, name: string)
    requires r.step < 4
    ensures Adds(r.(step := r.step + 1), name) <==> Adds(r, name) || name == NextName(r)
    ensures !Adds(r, NextName(r))
  {
    FamiliesAreDisjoint(r.path, r.statusCode, r.service);
    hide FamilyOf, TOTAL, RouteName, StatusName, DownstreamName;
  }

  lemma FreshAddsNothing(path: string, code: int, service: string, name: string)
    ensures !Adds(Request(path, code, service, 0), name)
  {
  }

  /** Replacing one request moves at most that one in or out of those that added to a counter. */
  lemma AddingOfUpdate(requests: seq<Request>, i: nat, r: Request, name: string)
    requires i < |requests| && !(Adds(requests[i], name) && !Adds(r, name))
    ensures |Adding(requests[i := r], name)|
         == |Adding(requests, name)| + (if Adds(r, name) && !Adds(requests[i], name) then 1 else 0)
  {
    hide Adds;
    if Adds(r, name) && !Adds(requests[i], name) {
      assert Adding(requests[i := r], name) == Adding(requests, name) + {i};
    } else {
      assert Adding(requests[i := r], name) == Adding(requests, name);
    }
  }

  lemma StepKeepsCounters(s: State, action: Action, name: string)
    requires Enabled(s, action) && ValueOf(s.counters, name) == |Adding(s.requests, name)|
    ensures ValueOf(Step(s, action).counters, name) == |Adding(Step(s, action).requests, name)|
  {
    hide Adds, NextName, Adding;
    match action
    case Begin(path, statusCode, service) =>
      FreshAddsNothing(path, statusCode, service, name);
      AddingOfAppend(s.requests, Request(path, statusCode, service, 0), name);
    case Advance(i) =>
      var r := s.requests[i];
      NextStepAdds(r, name);
      AddingOfUpdate(s.requests, i, r.(step := r.step + 1), name);
  }

  lemma AddingOfAppend(requests: seq<Request>, r: Request, name: string)
    requires !Adds(r, name)
    ensures Adding(requests + [r], name) == Adding(requests, name)
  {
  }

  lemma {:induction false} RunKeepsCounters(states: seq<State>, trace: seq<Action>, n: nat, name: string)
    requires IsRun(states, trace) && n <= |trace|
    ensures ValueOf(states[n].counters, name) == |Adding(states[n].requests, name)|
  {
    if n == 0 {
      assert Adding([], name) == {};
    } else {
      RunKeepsCounters(states, trace, n - 1, name);
      StepKeepsCounters(states[n - 1], trace[n - 1], name);
    }
  }

  /** Counter names are the same only for the same status and for paths and services that are the same
    * once made safe. */
  lemma NamesTellApart(p: string, q: string, m: int, n: int)
    ensures RouteName(p) == RouteName(q) <==> MetricSafe(p) == MetricSafe(q)
    ensures StatusName(m) == StatusName(n) <==> m == n
    ensures DownstreamName(p) == DownstreamName(q) <==> MetricSafe(p) == MetricSafe(q)
  {
    hide MetricSafe, Decimal.ToString;
    Between(ROUTE, MetricSafe(p));
    Between(ROUTE, MetricSafe(q));
    Between(DOWNSTREAM, MetricSafe(p));
    Between(DOWNSTREAM, MetricSafe(q));
    Between(STATUS, Decimal.ToString(m));
    Between(STATUS, Decimal.ToString(n));
    if StatusName(m) == StatusName(n) {
      Decimal.ToStringIsInjective(m, n);
    }
  }

  lemma Between(prefix: string, s: string)
    ensures var name := prefix + s + "_total"; name[|prefix|..|name| - 6] == s
  {
  }

  /** What each counter of every reachable state counts: the total the requests past their first step, a
    * route counter those past the second whose path is alike once made safe, a status counter those past
    * the third with just this code, a downstream counter those past the fourth whose service is alike. */
  lemma CounterMeaning(states: seq<State>, trace: seq<Action>, n: nat, path: string, code: int, service: string)
    requires IsRun(states, trace) && n <= |trace|
    ensures
      var c, rs := states[n].counters, states[n].requests;
      && ValueOf(c, "gateway_requests_total") == |set i: nat | i < |rs| && rs[i].step > 0|
      && ValueOf(c, "gateway_requests_route_" + MetricSafe(path) + "_total")
         == |set i: nat | i < |rs| && rs[i].step > 1 && MetricSafe(rs[i].path) == MetricSafe(path)|
      && ValueOf(c, "gateway_requests_status_" + Decimal.ToString(code) + "_total")
         == |set i: nat | i < |rs| && rs[i].step > 2 && rs[i].statusCode == code|
      && ValueOf(c, "gateway_downstream_" + MetricSafe(service) + "_total")
         == |set i: nat | i < |rs| && rs[i].step > 3 && MetricSafe(rs[i].service) == MetricSafe(service)|
  {
    hide FamilyOf, MetricSafe, Decimal.ToString;
    var rs := states[n].requests;
    RunKeepsCounters(states, trace, n, TOTAL);
    RunKeepsCounters(states, trace, n, RouteName(path));
    RunKeepsCounters(states, trace, n, StatusName(code));
    RunKeepsCounters(states, trace, n, DownstreamName(service));
    FamiliesAreDisjoint(path, code, service);
    forall i: nat | i < |rs|
      ensures Adds(rs[i], TOTAL) <==> rs[i].step > 0
      ensures Adds(rs[i], RouteName(path)) <==> rs[i].step > 1 && MetricSafe(rs[i].path) == MetricSafe(path)
      ensures Adds(rs[i], StatusName(code)) <==> rs[i].step > 2 && rs[i].statusCode == code
      ensures Adds(rs[i], DownstreamName(service)) <==>
                rs[i].step > 3 && MetricSafe(rs[i].service) == MetricSafe(service)
    {
      AddsToItsOwn(rs[i], path, code, service);
    }
    assert Adding(rs, TOTAL) == set i: nat | i < |rs| && rs[i].step > 0;
    assert Adding(rs, RouteName(path))
        == set i: nat | i < |rs| && rs[i].step > 1 && MetricSafe(rs[i].path) == MetricSafe(path);
    assert Adding(rs, StatusName(code)) == set i: nat | i < |rs| && rs[i].step > 2 && rs[i].statusCode == code;
    assert Adding(rs, DownstreamName(service))
        == set i: nat | i < |rs| && rs[i].step > 3 && MetricSafe(rs[i].service) == MetricSafe(service);
  }

  lemma AddsToItsOwn(r: Request, path: string, code: int, service: string)
    ensures Adds(r, TOTAL) <==> r.step > 0
    ensures Adds(r, RouteName(path)) <==> r.step > 1 && MetricSafe(r.path) == MetricSafe(path)
    ensures Adds(r, StatusName(code)) <==> r.step > 2 && r.statusCode == code
    ensures Adds(r, DownstreamName(service)) <==> r.step > 3 && MetricSafe(r.service) == MetricSafe(service)
  {
    FamiliesAreDisjoint(path, code, service);
    FamiliesAreDisjoint(r.path, r.statusCode, r.service);
    NamesTellApart(r.path, path, r.statusCode, code);
    NamesTellApart(r.service, service, r.statusCode, code);
    hide FamilyOf, TOTAL, RouteName, StatusName, DownstreamName, MetricSafe;
  }

  // -------------------------------------------------------------------------------------------
  // The lambda that finishes a request takes its steps one after the other
  // -------------------------------------------------------------------------------------------

  function ToEnd(counters: Counters, r: Request): Counters
    requires r.step <= r.Steps()
    decreases r.Steps() - r.step
  {
    if r.Finished() then counters
    else ToEnd(Incremented(counters, NextName(r), 1), r.(step := r.step + 1))
  }

  /** Finishing a request adds one to the total, its route's, its status's and, if it has a service, its
    * service's counter, and to no other. */
  lemma FinishAddsOne(counters: Counters, path: string, code: int, service: string, name: string)
    ensures
      ValueOf(ToEnd(counters, Request(path, code, service, 0)), name) == ValueOf(counters, name) +
        (if name == "gateway_requests_total"
          || name == "gateway_requests_route_" + MetricSafe(path) + "_total"
          || name == "gateway_requests_status_" + Decimal.ToString(code) + "_total"
          || (service != "" && name == "gateway_downstream_" + MetricSafe(service) + "_total")
         then 1 else 0)
  {
    FamiliesAreDisjoint(path, code, service);
    hide FamilyOf, MetricSafe, Decimal.ToString;
    var r0 := Request(path, code, service, 0);
    var r1, r2, r3 := r0.(step := 1), r0.(step := 2), r0.(step := 3);
    var c1 := Incremented(counters, TOTAL, 1);
    var c2 := Incremented(c1, RouteName(path), 1);
    var c3 := Incremented(c2, StatusName(code), 1);
    assert ToEnd(counters, r0) == ToEnd(c1, r1) == ToEnd(c2, r2) == ToEnd(c3, r3);
    assert service == "" ==> ToEnd(c3, r3) == c3;
    var c4 := Incremented(c3, DownstreamName(service), 1);
    assert service != "" ==> ToEnd(c3, r3) == ToEnd(c4, r3.(step := 4)) == c4;
  }

  method Finish(registry: MetricsRegistry, path: string, statusCode: int, service: string)
    modifies registry
    ensures registry.counters == ToEnd(old(registry.counters), Request(path, statusCode, service, 0))
  {
    hide RouteName, StatusName, DownstreamName, Incremented;
    ghost var r := Request(path, statusCode, service, 0);
    registry.Increment(TOTAL, 1);
    assert ToEnd(registry.counters, r.(step := 1)) == ToEnd(old(registry.counters), r);
    registry.Increment(RouteName(path), 1);
    assert ToEnd(registry.counters, r.(step := 2)) == ToEnd(old(registry.counters), r);
    registry.Increment(StatusName(statusCode), 1);
    assert ToEnd(registry.counters, r.(step := 3)) == ToEnd(old(registry.counters), r);
    if service != "" {
      registry.Increment(DownstreamName(service), 1);
      assert ToEnd(registry.counters, r.(step := 4)) == ToEnd(old(registry.counters), r);
    }
  }
}
