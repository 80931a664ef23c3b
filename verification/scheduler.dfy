/**
 * The current scheduler, `Jupitern\Scheduler\Scheduler`: one-time dates and
 * recurring rules, an optional daily time frame, and the enumeration of the
 * next dates from a reference instant.
 */
module Scheduler {
  import opened Wrappers
  import opened Clock
  import opened Ordering
  import opened Repetition

  /**
   * The daily time frame. The source keeps full date-times but re-anchors them
   * onto the date under test before every comparison, so only their clock
   * parts matter.
   */
  datatype TimeFrame = TimeFrame(start: Option<TimeOfDay>, end: Option<TimeOfDay>)

  /** A clock reading the frame allows: not before the start, not after the end. */
  predicate WithinWindow(frame: TimeFrame, clock: TimeOfDay) {
    && (frame.start.None? || frame.start.value <= clock)
    && (frame.end.None? || clock <= frame.end.value)
  }

  /**
   * `isInTimeFrame($date, $from)`: not before `from`, and not before the start
   * or after the end re-anchored onto the date's own day; a date exactly at
   * the end is accepted.
   */
  function InTimeFrame(frame: TimeFrame, date: Instant, from: Instant): (ok: bool)
    ensures ok <==> from <= date && WithinWindow(frame, Tod(date))
  {
    if date < from then false
    else if frame.start.Some? && date < AtClock(date, frame.start.value) then false
    else if frame.end.Some? && date > AtClock(date, frame.end.value) then false
    else true
  }

  /**
   * `strpos($schedule, '+') !== false`: a rule with a '+' at some position is a
   * relative offset; any other rule is an absolute jump.
   */
  predicate IsRelative(rule: string)
    ensures IsRelative(rule) <==> exists k :: 0 <= k < |rule| && rule[k] == '+'
  {
    '+' in rule
  }

  /**
   * The clamp a relative rule applies to its cursor before testing it: a
   * cursor before the start moves to the start on the same day; then a cursor
   * after the end moves to midnight of the next day (not to the start).
   */
  function Clamp(frame: TimeFrame, d: Instant): (r: Instant)
    ensures d <= r
    ensures WithinWindow(frame, Tod(d)) ==> r == d
    ensures frame.start.Some? && Tod(d) < frame.start.value ==>
      r == if frame.end.Some? && frame.end.value < frame.start.value
           then NextMidnight(d) else AtClock(d, frame.start.value)
    ensures frame.end.Some? && frame.end.value < Tod(d) ==> r == NextMidnight(d)
  {
    var c := if frame.start.Some? && d < AtClock(d, frame.start.value)
             then AtClock(d, frame.start.value) else d;
    if frame.end.Some? && c > AtClock(c, frame.end.value) then NextMidnight(c) else c
  }

  /**
   * The date one iteration of a rule tests, given the cursor `d`: a relative
   * rule tests the clamped cursor, never earlier than `d` and `d` itself inside
   * the window; an absolute rule tests the cursor after its step.
   */
  function Probe(frame: TimeFrame, rule: string, step: Modifier, d: Instant): (p: Instant)
    ensures IsRelative(rule) ==> d <= p && (WithinWindow(frame, Tod(d)) ==> p == d)
    ensures !IsRelative(rule) ==> p == Applied(rule, step, d, 1)
  {
    if IsRelative(rule) then Clamp(frame, d) else step(rule, d)
  }

  /**
   * The cursor after one iteration of a rule. For both kinds of rule the
   * cursor moves one step on from the date the iteration tested: a relative
   * rule tests first and steps afterwards, an absolute rule steps and tests the
   * result, which is then the cursor.
   */
  function Advance(frame: TimeFrame, rule: string, step: Modifier, d: Instant): (r: Instant)
    ensures IsRelative(rule) ==> r == step(rule, Probe(frame, rule, step, d))
    ensures !IsRelative(rule) ==> r == Probe(frame, rule, step, d)
  {
    if IsRelative(rule) then step(rule, Clamp(frame, d)) else step(rule, d)
  }

  /**
   * The cursor after `n` iterations; it starts at `from`. An absolute rule's
   * cursor ignores the time frame: it is `from` after `n` applications of the
   * rule, as in the revision without a time frame.
   */
  function Cursor(frame: TimeFrame, rule: string, step: Modifier, from: Instant, n: nat): (c: Instant)
    ensures !IsRelative(rule) ==> c == Applied(rule, step, from, n)
  {
    if n == 0 then from
    else Advance(frame, rule, step, Cursor(frame, rule, step, from, n - 1))
  }

  /** The dates the first `n` iterations of a rule record, in order. */
  function RuleRun(frame: TimeFrame, rule: string, step: Modifier, from: Instant, n: nat): (r: seq<Instant>)
    ensures |r| <= n
    ensures forall x :: x in r ==> InTimeFrame(frame, x, from)
  {
    if n == 0 then []
    else
      var c := Probe(frame, rule, step, Cursor(frame, rule, step, from, n - 1));
      RuleRun(frame, rule, step, from, n - 1) + if InTimeFrame(frame, c, from) then [c] else []
  }

  /** The one-time dates that pass the time frame, in registration order. */
  function OneTimeAccepted(frame: TimeFrame, from: Instant, events: seq<Instant>): (r: seq<Instant>)
    ensures |r| <= |events|
    ensures forall x :: x in r <==> x in events && InTimeFrame(frame, x, from)
  {
    if events == [] then []
    else
      var last := events[|events| - 1];
      assert events == events[..|events| - 1] + [last];
      OneTimeAccepted(frame, from, events[..|events| - 1]) + if InTimeFrame(frame, last, from) then [last] else []
  }

  /** What the recurring rules record, rule after rule, with `n` iterations each. */
  function RecurringCandidates(frame: TimeFrame, step: Modifier, from: Instant, rules: seq<string>, n: nat): (r: seq<Instant>)
    ensures |r| <= |rules| * n
    ensures forall x :: x in r ==> InTimeFrame(frame, x, from)
  {
    if rules == [] then []
    else
      var init := rules[..|rules| - 1];
      assert |init| * n + n == |rules| * n;
      RecurringCandidates(frame, step, from, init, n)
        + RuleRun(frame, rules[|rules| - 1], step, from, n)
  }

  /** Adding the next rule appends that rule's record: how the `foreach` over the rules builds the list. */
  lemma RecurringCandidatesSnoc(frame: TimeFrame, step: Modifier, from: Instant, rules: seq<string>, s: nat, n: nat)
    requires s < |rules|
    ensures RecurringCandidates(frame, step, from, rules[..s + 1], n)
         == RecurringCandidates(frame, step, from, rules[..s], n) + RuleRun(frame, rules[s], step, from, n)
  {
    assert rules[..s + 1][..s] == rules[..s];
  }

  /** Iteration `i` of a rule tests `x`, and the time frame accepts it. */
  predicate RecordedAt(frame: TimeFrame, rule: string, step: Modifier, from: Instant, i: nat, x: Instant) {
    x == Probe(frame, rule, step, Cursor(frame, rule, step, from, i)) && InTimeFrame(frame, x, from)
  }

  /**
   * A date is recorded by the first `n` iterations exactly when some iteration
   * tests it and the time frame accepts it.
   */
  lemma {:induction false} RuleRunMembers(frame: TimeFrame, rule: string, step: Modifier, from: Instant, n: nat, x: Instant)
    ensures x in RuleRun(frame, rule, step, from, n) <==>
      exists i: nat :: i < n && RecordedAt(frame, rule, step, from, i, x)
  {
    if n > 0 {
      var prev := RuleRun(frame, rule, step, from, n - 1);
      var c := Probe(frame, rule, step, Cursor(frame, rule, step, from, n - 1));
      var tail := if InTimeFrame(frame, c, from) then [c] else [];
      assert RuleRun(frame, rule, step, from, n) == prev + tail;
      assert x in tail <==> RecordedAt(frame, rule, step, from, n - 1, x);
      RuleRunMembers(frame, rule, step, from, n - 1, x);
      if !RecordedAt(frame, rule, step, from, n - 1, x) {
        assert forall i: nat :: i < n && RecordedAt(frame, rule, step, from, i, x) ==> i < n - 1;
      }
    }
  }

  /** Later iterations only append: the record of `m` iterations is a prefix of that of `n >= m`. */
  lemma {:induction false} RuleRunPrefix(frame: TimeFrame, rule: string, step: Modifier, from: Instant, m: nat, n: nat)
    requires m <= n
    ensures RuleRun(frame, rule, step, from, m) <= RuleRun(frame, rule, step, from, n)
  {
    if m < n {
      RuleRunPrefix(frame, rule, step, from, m, n - 1);
      var prev := RuleRun(frame, rule, step, from, n - 1);
      var c := Probe(frame, rule, step, Cursor(frame, rule, step, from, n - 1));
      assert RuleRun(frame, rule, step, from, n) == prev + if InTimeFrame(frame, c, from) then [c] else [];
    }
  }

  /**
   * A relative rule first tests the clamped `from` itself (so `from` when it is
   * inside the window) and applies its step only afterwards.
   */
  lemma RelativeFirstCandidate(frame: TimeFrame, rule: string, step: Modifier, from: Instant, n: nat)
    requires IsRelative(rule) && 1 <= n
    ensures Cursor(frame, rule, step, from, 1) == step(rule, Clamp(frame, from))
    ensures InTimeFrame(frame, Clamp(frame, from), from) ==>
      |RuleRun(frame, rule, step, from, n)| >= 1 && RuleRun(frame, rule, step, from, n)[0] == Clamp(frame, from)
    ensures WithinWindow(frame, Tod(from)) ==>
      |RuleRun(frame, rule, step, from, n)| >= 1 && RuleRun(frame, rule, step, from, n)[0] == from
  {

  }

  /**
   * An absolute rule first tests `step(rule, from)`, not the unstepped `from`
   * (the two coincide only when the rule leaves `from` unchanged), and its
   * `i`-th test (counting from 0) is `i + 1` steps from `from`, the same date
   * the revision without a time frame records.
   */
  lemma AbsoluteFirstCandidate(frame: TimeFrame, rule: string, step: Modifier, from: Instant, n: nat)
    requires !IsRelative(rule) && 1 <= n
    ensures Cursor(frame, rule, step, from, 1) == step(rule, from)
    ensures forall i: nat :: Probe(frame, rule, step, Cursor(frame, rule, step, from, i)) == Applied(rule, step, from, i + 1)
    ensures InTimeFrame(frame, step(rule, from), from) ==>
      |RuleRun(frame, rule, step, from, n)| >= 1 && RuleRun(frame, rule, step, from, n)[0] == step(rule, from)
  {

  }

  /** Everything `getNextSchedules` collects before sorting. */
  function Candidates(frame: TimeFrame, step: Modifier, events: seq<Instant>, rules: seq<string>,
                      from: Instant, limit: int): (c: seq<Instant>)
    ensures |c| <= |events| + |rules| * Iterations(limit)
  {
    OneTimeAccepted(frame, from, events) + RecurringCandidates(frame, step, from, rules, Iterations(limit))
  }

  /**
   * `getNextSchedules($from, $limit)`: the candidates sorted, then sliced to
   * `limit`. A non-negative limit keeps `min(limit, |candidates|)` dates; a
   * negative one, as `array_slice` does, drops that many of the latest.
   */
  function NextSchedules(frame: TimeFrame, step: Modifier, events: seq<Instant>, rules: seq<string>,
                         from: Instant, limit: int): (r: seq<Instant>)
    ensures var n := |Candidates(frame, step, events, rules, from, limit)|;
      && Sorted(r)
      && (limit >= 0 ==> |r| == if limit < n then limit else n)
      && (limit < 0 ==> |r| == if n + limit > 0 then n + limit else 0)
  {
    var c := Candidates(frame, step, events, rules, from, limit);
    EarliestFirst(c, limit);
    assert |SortAsc(c)| == |multiset(SortAsc(c))| == |c|;
    Slice(SortAsc(c), limit)
  }

  /**
   * `getNextSchedule($from)`: the first of `getNextSchedules($from, 1)`, if
   * any; null exactly when nothing passes the time frame.
   */
  function NextSchedule(frame: TimeFrame, step: Modifier, events: seq<Instant>, rules: seq<string>,
                        from: Instant): (next: Option<Instant>)
    ensures next.None? <==> |Candidates(frame, step, events, rules, from, 1)| == 0
    ensures next.Some? ==> next.value in Candidates(frame, step, events, rules, from, 1)
  {
    var dates := NextSchedules(frame, step, events, rules, from, 1);
    EarliestSingle(Candidates(frame, step, events, rules, from, 1));
    if |dates| > 0 then Some(dates[0]) else None
  }

  /**
   * No deduplication among the one-time dates: each accepted date is kept as
   * many times as it was registered, and a rejected one not at all.
   */
  lemma {:induction false} OneTimeMultiplicity(frame: TimeFrame, from: Instant, events: seq<Instant>, x: Instant)
    ensures multiset(OneTimeAccepted(frame, from, events))[x]
         == if InTimeFrame(frame, x, from) then multiset(events)[x] else 0
  {
    if events != [] {
      var init, last := events[..|events| - 1], events[|events| - 1];
      assert events == init + [last];
      OneTimeMultiplicity(frame, from, init, x);
    }
  }

  /** The first loop of `getNextSchedules`: the one-time dates that pass the time frame. */
  method AcceptOneTime(frame: TimeFrame, from: Instant, events: seq<Instant>) returns (accepted: seq<Instant>)
    ensures accepted == OneTimeAccepted(frame, from, events)
    ensures forall x :: x in accepted <==> x in events && from <= x && WithinWindow(frame, Tod(x))
  {
    accepted := [];
    var k := 0;
    while k < |events|
      invariant 0 <= k <= |events|
      invariant accepted == OneTimeAccepted(frame, from, events[..k])
    {
      var evt := events[k];
      assert events[..k + 1][..k] == events[..k];
      if InTimeFrame(frame, evt, from) {
        accepted := accepted + [evt];
      }
      k := k + 1;
    }
    assert events[..k] == events;
  }

  /**
   * One recurring rule's pass of `getNextSchedules`: the cursor starts at
   * `from`; an absolute rule moves the cursor and then tests it, a relative
   * rule clamps the cursor into the frame, tests it, and then moves it. The
   * `10 * $limit` counter falls in step with `$i`, so the loop always makes
   * exactly `max(limit, 0)` passes.
   */
  method RunRule(frame: TimeFrame, schedule: string, from: Instant, limit: int, step: Modifier)
    returns (found: seq<Instant>)
    ensures found == RuleRun(frame, schedule, step, from, Iterations(limit))
    ensures |found| <= Iterations(limit)
    ensures forall x :: x in found ==> from <= x && WithinWindow(frame, Tod(x))
  {
    found := [];
    var d := from;
    var i, maxRecursion := 0, 10 * limit;
    while i < limit && maxRecursion > 0
      invariant 0 <= i <= Iterations(limit)
      invariant maxRecursion == 10 * limit - i
      invariant d == Cursor(frame, schedule, step, from, i)
      invariant found == RuleRun(frame, schedule, step, from, i)
      decreases limit - i
    {
      if !IsRelative(schedule) {
        d := step(schedule, d);
        if InTimeFrame(frame, d, from) {
          found := found + [d];
        }
      } else {
        if frame.start.Some? && d < AtClock(d, frame.start.value) {
          d := AtClock(d, frame.start.value);
        }
        if frame.end.Some? && d > AtClock(d, frame.end.value) {
          d := NextMidnight(d);
        }
        if InTimeFrame(frame, d, from) {
          found := found + [d];
        }
        d := step(schedule, d);
      }
      i, maxRecursion := i + 1, maxRecursion - 1;
    }
    assert i == Iterations(limit);
  }

  /**
   * `setTimeFrame` leaves a bound alone when its argument is null or PHP-empty
   * (the empty string or "0").
   */
  predicate Blank(arg: Option<string>)
    ensures arg.None? ==> Blank(arg)
    ensures arg.Some? && |arg.value| == 0 ==> Blank(arg)
    ensures arg.Some? && |arg.value| == 1 ==> (Blank(arg) <==> arg.value[0] == '0')
    ensures arg.Some? && |arg.value| >= 2 ==> !Blank(arg)
  {
    arg.None? || arg.value == "" || arg.value == "0"
  }

  class Scheduler {
    var schedules: seq<string>
    var oneTimeEvents: seq<Instant>
    var startTime: Option<TimeOfDay>
    var endTime: Option<TimeOfDay>

    /** `Scheduler::instance()`: nothing registered and no time frame. */
    constructor ()
      ensures schedules == [] && oneTimeEvents == []
      ensures startTime == None && endTime == None
    {
      schedules, oneTimeEvents := [], [];
      startTime, endTime := None, None;
    }

    function Frame(): TimeFrame
      reads this
    {
      TimeFrame(startTime, endTime)
    }

    /**
     * `setTimeFrame($startTime, $endTime)`; `clockOf` reads the clock part of
     * a time string (the date library's parser).
     */
    method SetTimeFrame(start: Option<string>, end: Option<string>, clockOf: string -> TimeOfDay)
      modifies this
      ensures startTime == if Blank(start) then old(startTime) else Some(clockOf(start.value))
      ensures endTime == if Blank(end) then old(endTime) else Some(clockOf(end.value))
      ensures schedules == old(schedules) && oneTimeEvents == old(oneTimeEvents)
    {
      if !Blank(start) {
        startTime := Some(clockOf(start.value));
      }
      if !Blank(end) {
        endTime := Some(clockOf(end.value));
      }
    }

    /** `add($date)`: registers a one-time date (already parsed by the caller). */
    method Add(date: Instant)
      modifies this
      ensures oneTimeEvents == old(oneTimeEvents) + [date]
      ensures schedules == old(schedules) && Frame() == old(Frame())
    {
      oneTimeEvents := oneTimeEvents + [date];
    }

    /** `addRecurring($rule)`: registers a recurring rule. */
    method AddRecurring(rule: string)
      modifies this
      ensures schedules == old(schedules) + [rule]
      ensures oneTimeEvents == old(oneTimeEvents) && Frame() == old(Frame())
    {
      schedules := schedules + [rule];
    }

    /** `getNextSchedules($from, $limit)`. */
    method GetNextSchedules(from: Instant, step: Modifier, limit: int := 5) returns (dates: seq<Instant>)
      ensures dates == NextSchedules(Frame(), step, oneTimeEvents, schedules, from, limit)
      ensures Sorted(dates)
      ensures limit >= 0 ==> |dates| <= limit
      ensures forall x :: x in dates ==> from <= x && WithinWindow(Frame(), Tod(x))
    {
      var frame, events, rules := Frame(), oneTimeEvents, schedules;
      var accepted := AcceptOneTime(frame, from, events);
      var recurring := [];
      var s := 0;
      while s < |rules|
        invariant 0 <= s <= |rules|
        invariant recurring == RecurringCandidates(frame, step, from, rules[..s], Iterations(limit))
      {
        var found := RunRule(frame, rules[s], from, limit, step);
        RecurringCandidatesSnoc(frame, step, from, rules, s, Iterations(limit));
        recurring := recurring + found;
        s := s + 1;
      }
      assert rules[..s] == rules;
      dates := accepted + recurring;

      var buffer := new Instant[|dates|](j requires 0 <= j < |dates| => dates[j]);
      assert buffer[..] == dates;
      OrderDates(buffer);
      dates := Slice(buffer[..], limit);
      NextSchedulesProperties(frame, step, events, rules, from, limit);
    }

    /** `getNextSchedule($from)`. */
    method GetNextSchedule(from: Instant, step: Modifier) returns (next: Option<Instant>)
      ensures next == NextSchedule(Frame(), step, oneTimeEvents, schedules, from)
      ensures next.Some? ==> from <= next.value && WithinWindow(Frame(), Tod(next.value))
    {
      var dates := GetNextSchedules(from, step, 1);
      next := if |dates| > 0 then Some(dates[0]) else None;
      assert next.Some? ==> next.value in dates;
    }
  }

  /**
   * The enumeration's promises: ascending, at most `limit` dates, every one in
   * the time frame and not before `from`, and they are the earliest of the
   * candidates.
   */
  lemma NextSchedulesProperties(frame: TimeFrame, step: Modifier, events: seq<Instant>, rules: seq<string>,
                                from: Instant, limit: int)
    ensures var r := NextSchedules(frame, step, events, rules, from, limit);
      var c := Candidates(frame, step, events, rules, from, limit);
      && Sorted(r)
      && (limit >= 0 ==> |r| <= limit)
      && (limit >= 0 ==> |r| == if limit < |c| then limit else |c|)
      && (forall x :: x in r ==> InTimeFrame(frame, x, from))
      && multiset(r) <= multiset(c)
      && (forall x, y :: x in r && y in multiset(c) - multiset(r) ==> x <= y)
  {
    var c := Candidates(frame, step, events, rules, from, limit);
    var r := NextSchedules(frame, step, events, rules, from, limit);
    EarliestFirst(c, limit);
    forall x | x in r
      ensures InTimeFrame(frame, x, from)
    {
      assert x in multiset(r);
      assert x in c;
    }
  }

  /** Every candidate passed the time frame, whichever loop produced it. */
  lemma CandidatesInTimeFrame(frame: TimeFrame, step: Modifier, events: seq<Instant>, rules: seq<string>,
                              from: Instant, limit: int, x: Instant)
    requires x in Candidates(frame, step, events, rules, from, limit)
    ensures InTimeFrame(frame, x, from)
  {

  }

  /**
   * `getNextSchedule` is the earliest candidate of a limit-1 enumeration, and
   * there is none exactly when that enumeration collects nothing.
   */
  lemma NextScheduleEarliest(frame: TimeFrame, step: Modifier, events: seq<Instant>, rules: seq<string>, from: Instant)
    ensures var c := Candidates(frame, step, events, rules, from, 1);
      var next := NextSchedule(frame, step, events, rules, from);
      && (next.None? <==> c == [])
      && (next.Some? ==> next.value in c && from <= next.value && WithinWindow(frame, Tod(next.value)))
      && (next.Some? ==> forall y :: y in c ==> next.value <= y)
  {
    var c := Candidates(frame, step, events, rules, from, 1);
    EarliestSingle(c);
    var next := NextSchedule(frame, step, events, rules, from);
    if next.Some? {
      CandidatesInTimeFrame(frame, step, events, rules, from, 1, next.value);
    }
  }

  /**
   * No deduplication: when the limit does not cut, every candidate is
   * returned as often as it was collected, repeated timestamps included.
   */
  lemma NothingDroppedUnderLimit(frame: TimeFrame, step: Modifier, events: seq<Instant>, rules: seq<string>,
                                 from: Instant, limit: int)
    requires |Candidates(frame, step, events, rules, from, limit)| <= limit
    ensures multiset(NextSchedules(frame, step, events, rules, from, limit))
         == multiset(Candidates(frame, step, events, rules, from, limit))
  {

  }

  /**
   * A window of 08:00-17:00 and the rule '+2 hours' from 16:00 of day 0 with
   * limit 2: 16:00 is recorded, 18:00 rolls over to midnight of day 1, and
   * midnight is before the start, so nothing else is recorded.
   */
  lemma RolloverScenario()
    ensures NextSchedules(TimeFrame(Some(8 * 3600), Some(17 * 3600)), (rule, t) => t + 2 * 3600,
                          [], ["+2 hours"], 16 * 3600, 2) == [16 * 3600]
  {
    var frame := TimeFrame(Some(8 * 3600), Some(17 * 3600));
    var step: Modifier := (rule, t) => t + 2 * 3600;
    var rule := "+2 hours";
    assert IsRelative(rule) by { assert rule[0] == '+'; }
    assert Cursor(frame, rule, step, 16 * 3600, 1) == 18 * 3600;
    assert Clamp(frame, 18 * 3600) == SecondsPerDay;
    assert RuleRun(frame, rule, step, 16 * 3600, 2) == [16 * 3600];
    assert ["+2 hours"][..0] == [];
  }

  /** Two one-time registrations of the same instant are both returned. */
  lemma DuplicatesKept(step: Modifier)
    ensures NextSchedules(TimeFrame(None, None), step, [5, 5], [], 0, 5) == [5, 5]
  {
    var frame := TimeFrame(None, None);
    var events: seq<Instant> := [5, 5];
    var once: seq<Instant> := [5];
    assert InTimeFrame(frame, 5, 0);
    assert once[..0] == [];
    assert OneTimeAccepted(frame, 0, once) == OneTimeAccepted(frame, 0, []) + [5];
    assert events[..1] == once;
    assert OneTimeAccepted(frame, 0, events) == OneTimeAccepted(frame, 0, once) + [5];
    assert RecurringCandidates(frame, step, 0, [], Iterations(5)) == [];
    assert Candidates(frame, step, events, [], 0, 5) == [5, 5];
    var r := NextSchedules(frame, step, events, [], 0, 5);
    NothingDroppedUnderLimit(frame, step, events, [], 0, 5);
    NextSchedulesProperties(frame, step, events, [], 0, 5);
    SortedUnique(r, [5, 5]);
  }
}
