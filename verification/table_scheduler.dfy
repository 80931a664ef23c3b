/**
 * The older scheduler, `Jupitern\Table\Scheduler`: one-time dates and
 * recurring rules, no time frame. Each rule is applied a fixed number of times
 * from the reference instant, with no comparison against it.
 */
module TableScheduler {
  import opened Wrappers
  import opened Clock
  import opened Ordering
  import opened Repetition

  /** The dates one rule contributes: the 1st to the `n`-th application to `from`. */
  function Successive(rule: string, step: Modifier, from: Instant, n: nat): (r: seq<Instant>)
    ensures |r| == n
    ensures forall k :: 0 <= k < n ==> r[k] == Applied(rule, step, from, k + 1)
  {
    if n == 0 then []
    else Successive(rule, step, from, n - 1) + [Applied(rule, step, from, n)]
  }

  /** What the rules contribute, rule after rule, `n` dates each. */
  function RecurringCandidates(step: Modifier, from: Instant, rules: seq<string>, n: nat): (r: seq<Instant>)
    ensures |r| == |rules| * n
  {
    if rules == [] then []
    else
      var init := rules[..|rules| - 1];
      assert |init| * n + n == |rules| * n;
      RecurringCandidates(step, from, init, n) + Successive(rules[|rules| - 1], step, from, n)
  }

  /** Adding the next rule appends that rule's dates: how the `foreach` over the rules builds the list. */
  lemma RecurringCandidatesSnoc(step: Modifier, from: Instant, rules: seq<string>, s: nat, n: nat)
    requires s < |rules|
    ensures RecurringCandidates(step, from, rules[..s + 1], n)
         == RecurringCandidates(step, from, rules[..s], n) + Successive(rules[s], step, from, n)
  {
    assert rules[..s + 1][..s] == rules[..s];
  }

  /** Everything `getNextSchedules` collects when there are rules: the one-time dates unfiltered, then the rules' dates. */
  function Candidates(step: Modifier, events: seq<Instant>, rules: seq<string>, from: Instant, limit: int): (c: seq<Instant>)
    ensures |c| == |events| + |rules| * Iterations(limit)
    ensures multiset(events) <= multiset(c)
  {
    events + RecurringCandidates(step, from, rules, Iterations(limit))
  }

  /**
   * `getNextSchedules($from, $limit)`: with no rules, the one-time dates as
   * registered; otherwise the candidates sorted and sliced to `limit`.
   */
  function NextSchedules(step: Modifier, events: seq<Instant>, rules: seq<string>, from: Instant, limit: int): (r: seq<Instant>)
    ensures |rules| > 0 ==> Sorted(r)
    ensures |rules| > 0 && limit >= 0 ==>
      var n := |events| + |rules| * limit;
      |r| == if limit < n then limit else n
  {
    if |rules| == 0 then events
    else
      var c := Candidates(step, events, rules, from, limit);
      EarliestFirst(c, limit);
      Slice(SortAsc(c), limit)
  }

  /**
   * `getNextSchedule($from)`: the first of `getNextSchedules($from, 1)`, if
   * any; null only when nothing at all is registered, since with a rule there
   * is always a candidate.
   */
  function NextSchedule(step: Modifier, events: seq<Instant>, rules: seq<string>, from: Instant): (next: Option<Instant>)
    ensures next.None? <==> |events| == 0 && |rules| == 0
  {
    var dates := NextSchedules(step, events, rules, from, 1);
    if |dates| > 0 then Some(dates[0]) else None
  }

  /** One rule's `for` loop: `limit` successive applications of the rule to `from`. */
  method RunRule(schedule: string, from: Instant, limit: int, step: Modifier) returns (found: seq<Instant>)
    ensures found == Successive(schedule, step, from, Iterations(limit))
    ensures |found| == Iterations(limit)
  {
    found := [];
    var d := from;
    var i := 0;
    while i < limit
      invariant 0 <= i <= Iterations(limit)
      invariant d == Applied(schedule, step, from, i)
      invariant found == Successive(schedule, step, from, i)
    {
      d := step(schedule, d);
      found := found + [d];
      i := i + 1;
    }
  }

  class Scheduler {
    var schedules: seq<string>
    var oneTimeEvents: seq<Instant>

    /** `Scheduler::instance()`: nothing registered. */
    constructor ()
      ensures schedules == [] && oneTimeEvents == []
    {
      schedules, oneTimeEvents := [], [];
    }

    /** `add($date)`: registers a one-time date (already parsed by the caller). */
    method Add(date: Instant)
      modifies this
      ensures oneTimeEvents == old(oneTimeEvents) + [date]
      ensures schedules == old(schedules)
    {
      oneTimeEvents := oneTimeEvents + [date];
    }

    /** `addRecurring($rule)`: registers a recurring rule. */
    method AddRecurring(rule: string)
      modifies this
      ensures schedules == old(schedules) + [rule]
      ensures oneTimeEvents == old(oneTimeEvents)
    {
      schedules := schedules + [rule];
    }

    /** `getNextSchedules($from, $limit)`. */
    method GetNextSchedules(from: Instant, step: Modifier, limit: int := 5) returns (dates: seq<Instant>)
      ensures dates == NextSchedules(step, oneTimeEvents, schedules, from, limit)
      ensures |schedules| == 0 ==> dates == oneTimeEvents
      ensures |schedules| > 0 ==> Sorted(dates) && (limit >= 0 ==> |dates| <= limit)
    {
      var events, rules := oneTimeEvents, schedules;
      dates := events;
      if |rules| == 0 {
        return;
      }
      var recurring := [];
      var s := 0;
      while s < |rules|
        invariant 0 <= s <= |rules|
        invariant recurring == RecurringCandidates(step, from, rules[..s], Iterations(limit))
      {
        var found := RunRule(rules[s], from, limit, step);
        RecurringCandidatesSnoc(step, from, rules, s, Iterations(limit));
        recurring := recurring + found;
        s := s + 1;
      }
      assert rules[..s] == rules;
      dates := dates + recurring;

      var buffer := new Instant[|dates|](j requires 0 <= j < |dates| => dates[j]);
      assert buffer[..] == dates;
      OrderDates(buffer);
      dates := Slice(buffer[..], limit);
      EarliestFirst(Candidates(step, events, rules, from, limit), limit);
    }

    /** `getNextSchedule($from)`. */
    method GetNextSchedule(from: Instant, step: Modifier) returns (next: Option<Instant>)
      ensures next == NextSchedule(step, oneTimeEvents, schedules, from)
      ensures |schedules| == 0 ==> next == if |oneTimeEvents| > 0 then Some(oneTimeEvents[0]) else None
    {
      var dates := GetNextSchedules(from, step, 1);
      next := if |dates| > 0 then Some(dates[0]) else None;
    }
  }

  /**
   * With rules registered: ascending, at most `limit` dates, the earliest of
   * the candidates; the one-time dates are among the candidates whatever
   * `from` is, and each rule contributes exactly `max(limit, 0)` dates.
   */
  lemma NextSchedulesProperties(step: Modifier, events: seq<Instant>, rules: seq<string>, from: Instant, limit: int)
    requires |rules| > 0
    ensures var r := NextSchedules(step, events, rules, from, limit);
      var c := Candidates(step, events, rules, from, limit);
      && Sorted(r)
      && (limit >= 0 ==> |r| <= limit)
      && (limit >= 0 ==> |r| == if limit < |c| then limit else |c|)
      && |c| == |events| + |rules| * Iterations(limit)
      && multiset(events) <= multiset(c)
      && multiset(r) <= multiset(c)
      && (forall x, y :: x in r && y in multiset(c) - multiset(r) ==> x <= y)
  {
    var c := Candidates(step, events, rules, from, limit);
    EarliestFirst(c, limit);
    assert multiset(c) == multiset(events) + multiset(RecurringCandidates(step, from, rules, Iterations(limit)));
  }

  /**
   * `getNextSchedule`: with no rules, the first date registered, earlier ones
   * and ones before `from` alike; with rules, the earliest candidate, which
   * may be a one-time date before `from`.
   */
  lemma NextScheduleChoice(step: Modifier, events: seq<Instant>, rules: seq<string>, from: Instant)
    ensures |rules| == 0 ==> NextSchedule(step, events, rules, from) == if |events| > 0 then Some(events[0]) else None
    ensures |rules| > 0 ==>
      && NextSchedule(step, events, rules, from).Some?
      && NextSchedule(step, events, rules, from).value in Candidates(step, events, rules, from, 1)
      && forall y :: y in Candidates(step, events, rules, from, 1) ==> NextSchedule(step, events, rules, from).value <= y
  {
    if |rules| > 0 {
      var c := Candidates(step, events, rules, from, 1);
      assert |c| >= 1;
      EarliestSingle(c);
    }
  }

  /** A rule's `k`-th date (counting from 0) is `k + 1` applications of the rule to `from`. */
  lemma {:induction false} RuleDates(step: Modifier, from: Instant, rules: seq<string>, limit: int, s: nat, k: nat)
    requires s < |rules| && k < Iterations(limit)
    ensures var n := Iterations(limit);
      s * n + k < |RecurringCandidates(step, from, rules, n)|
      && RecurringCandidates(step, from, rules, n)[s * n + k] == Applied(rules[s], step, from, k + 1)
  {
    var n := Iterations(limit);
    if s < |rules| - 1 {
      RuleDates(step, from, rules[..|rules| - 1], limit, s, k);
      assert rules[..|rules| - 1][s] == rules[s];
    } else {
      assert |rules[..|rules| - 1]| * n == s * n;
    }
  }
}
