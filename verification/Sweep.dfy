/** The sweep for missing load-survey data of past days: a step machine over (day, meter) that the
    idle loop drives, one step a round. Dates are opaque: `prev` is the day before, and each round
    brings along what the clock calls yesterday. */
module Sweep {
  import opened Json

  /** `missing_old_data_midx`, `old_poll_day`, `first_day` and `local_copy`. */
  datatype State<Date> = State(midx: nat, day: nat, first: bool, date: Date)

  /** What a round of the idle loop finds: both configuration switches on, yesterday by the clock, and
      which meters are enabled. */
  datatype Round<Date> = Round(active: bool, yesterday: Date, enabled: seq<bool>)

  /** A meter whose data of a past day is looked up, and fetched if incomplete. */
  datatype Check<Date> = Check(day: nat, meter: nat, date: Date)

  /** One round. */
  function Step<Date>(s: State<Date>, r: Round<Date>, days: int, prev: Date -> Date): (State<Date>,
      Option<Check<Date>>) {
    if !r.active then (s, None)
    else
      var date := if s.first then r.yesterday else s.date;
      if s.midx < |r.enabled| then
        if !r.enabled[s.midx] then (State(s.midx + 1, s.day, s.first, date), None)
        else if s.day < days then (State(s.midx + 1, s.day, s.first, date), Some(Check(s.day, s.midx, date)))
        else (State(s.midx, s.day, s.first, date), None)
      else if s.day < days - 1 then (State(0, s.day + 1, false, prev(date)), None)
      else (State(0, 0, true, date), None)
  }

  /** A run: the last state and the checks made, in order. */
  function Run<Date>(s: State<Date>, rs: seq<Round<Date>>, days: int, prev: Date -> Date): (State<Date>,
      seq<Check<Date>>)
    decreases |rs|
  {
    if rs == [] then (s, [])
    else
      var (t, c) := Step(s, rs[0], days, prev);
      var (u, log) := Run(t, rs[1..], days, prev);
      (u, (if c.Some? then [c.value] else []) + log)
  }

  class Sweeper<Date> {
    var missingOldDataMidx: nat
    var oldPollDay: nat
    var firstDay: bool
    var localCopy: Date

    constructor (date: Date)
      ensures Current() == State(0, 0, true, date)
    {
      missingOldDataMidx, oldPollDay, firstDay, localCopy := 0, 0, true, date;
    }

    ghost function Current(): State<Date>
      reads this
    {
      State(missingOldDataMidx, oldPollDay, firstDay, localCopy)
    }

    /** The sweep's part of one round of `idle_poll_phase`. */
    method Poll(r: Round<Date>, numOldDays: int, prev: Date -> Date) returns (check: Option<Check<Date>>)
      modifies this
      ensures (Current(), check) == Step(old(Current()), r, numOldDays, prev)
    {
      check := None;
      if !r.active {
        return;
      }
      if firstDay {
        localCopy := r.yesterday;
      }
      if missingOldDataMidx < |r.enabled| {
        if r.enabled[missingOldDataMidx] {
          if oldPollDay < numOldDays {
            check := Some(Check(oldPollDay, missingOldDataMidx, localCopy));
            missingOldDataMidx := missingOldDataMidx + 1;
          }
        } else {
          missingOldDataMidx := missingOldDataMidx + 1;
        }
      } else if oldPollDay < numOldDays - 1 {
        firstDay := false;
        oldPollDay := oldPollDay + 1;
        missingOldDataMidx := 0;
        localCopy := prev(localCopy);
      } else {
        missingOldDataMidx := 0;
        oldPollDay := 0;
        firstDay := true;
      }
    }
  }

  // ---- every run ----

  /** What every round keeps, with `n` meters: the day index never reaches the number of days. */
  predicate Inside<Date>(s: State<Date>, n: nat, days: int) {
    s.midx <= n && s.day < days && (s.first <==> s.day == 0)
  }

  predicate Meters<Date>(rs: seq<Round<Date>>, n: nat) {
    forall i :: 0 <= i < |rs| ==> |rs[i].enabled| == n
  }

  /** Where the sweep stands among its `days * (n + 1)` positions. */
  function Position<Date>(s: State<Date>, n: nat): nat {
    s.day * (n + 1) + s.midx
  }

  /** An active round moves on by exactly one position and wraps around at the end, whatever meters are
      enabled; so the sweep never stalls and never leaves its range. */
  lemma StepAdvances<Date>(s: State<Date>, r: Round<Date>, n: nat, days: int, prev: Date -> Date)
    requires Inside(s, n, days) && |r.enabled| == n
    ensures var t := Step(s, r, days, prev).0;
      && Inside(t, n, days) && Position(s, n) < days * (n + 1)
      && Position(t, n) ==
         if !r.active then Position(s, n)
         else if Position(s, n) + 1 == days * (n + 1) then 0
         else Position(s, n) + 1
  {
    DayPositions(s.day, n, days);
  }

  lemma DayPositions(day: nat, n: nat, days: int)
    requires day < days
    ensures (day + 1) * (n + 1) == day * (n + 1) + (n + 1)
    ensures if day + 1 == days then days * (n + 1)
      == day * (n + 1) + (n + 1) else days * (n + 1) > day * (n + 1) + (n + 1)
  {
    var d := days - 1 - day;
    assert days * (n + 1) == day * (n + 1) + d * (n + 1) + (n + 1);
    assert d > 0 ==> d * (n + 1) > 0;
  }

  /** The invariant over whole runs, from the start, with rounds of any kind. */
  lemma {:induction false} RunInside<Date>(s: State<Date>, rs: seq<Round<Date>>, n: nat, days: int, prev: Date -> Date)
    requires Inside(s, n, days) && Meters(rs, n)
    ensures Inside(Run(s, rs, days, prev).0, n, days)
    decreases |rs|
  {
    if rs == [] {
    } else {
      StepAdvances(s, rs[0], n, days, prev);
      RunInside(Step(s, rs[0], days, prev).0, rs[1..], n, days, prev);
    }
  }

  // ---- when there is no old day to look at ----

  /** A round gets stuck exactly on an enabled meter with no day left. */
  lemma StuckStep<Date>(s: State<Date>, r: Round<Date>, days: int, prev: Date -> Date)
    requires r.active
    ensures var (t, c) := Step(s, r, days, prev);
      (t.midx == s.midx && t.day == s.day && c == None && s.midx < |r.enabled|) <==> (s.midx < |r.enabled|
        && r.enabled[s.midx] && s.day >= days)
  {
  }

  /** As long as that meter stays enabled, it stays stuck there and checks nothing. */
  lemma {:induction false} StuckForEver<Date>(s: State<Date>, rs: seq<Round<Date>>, days: int, prev: Date -> Date)
    requires s.day >= days && forall i :: 0 <= i < |rs| ==> s.midx < |rs[i].enabled| && rs[i].enabled[s.midx]
    ensures var (t, log) := Run(s, rs, days, prev); log == [] && t.midx == s.midx && t.day == s.day
    decreases |rs|
  {
    if rs == [] {
    } else {
      var next := Step(s, rs[0], days, prev).0;
      if rs[0].active {
        StuckStep(s, rs[0], days, prev);
      }
      hide Step;
      StuckForEver(next, rs[1..], days, prev);
    }
  }

  /** With no old days configured, the sweep checks nothing and never gets past an enabled meter. */
  lemma {:induction false} NoDaysStall<Date>(s: State<Date>, rs: seq<Round<Date>>, m: nat, days: int,
      prev: Date -> Date)
    requires days <= 0 && s.midx <= m && forall i :: 0 <= i < |rs| ==> m < |rs[i].enabled| && rs[i].enabled[m]
    ensures var (t, log) := Run(s, rs, days, prev); log == [] && t.midx <= m
    decreases |rs|
  {
    if rs == [] {
    } else {
      NoDaysStall(Step(s, rs[0], days, prev).0, rs[1..], m, days, prev);
    }
  }

  // ---- coverage ----

  /** Rounds with the switches on and the same meters enabled. */
  predicate Steady<Date>(rs: seq<Round<Date>>, enabled: seq<bool>) {
    forall i :: 0 <= i < |rs| ==> rs[i].active && rs[i].enabled == enabled
  }

  function Yesterdays<Date>(rs: seq<Round<Date>>): (ds: seq<Date>)
    ensures |ds| == |rs| && forall i :: 0 <= i < |rs| ==> ds[i] == rs[i].yesterday
  {
    seq(|rs|, i requires 0 <= i < |rs| => rs[i].yesterday)
  }

  function Constant<Date>(date: Date, n: nat): (ds: seq<Date>)
    ensures |ds| == n && forall i :: 0 <= i < n ==> ds[i] == date
  {
    seq(n, i => date)
  }

  /** The checks of one day from meter `m` on, with the date each meter gets. */
  function DayLog<Date>(day: nat, m: nat, enabled: seq<bool>, dates: seq<Date>): seq<Check<Date>>
    requires m <= |enabled| && |dates| == |enabled| - m
    decreases |dates|
  {
    if m == |enabled| then []
    else (if enabled[m] then [Check(day, m, dates[0])] else []) + DayLog(day, m + 1, enabled, dates[1..])
  }

  /** The checks from a later day on: all meters of that day with its date, then the day before. */
  function LaterLog<Date>(day: nat, date: Date, enabled: seq<bool>, days: nat, prev: Date -> Date): seq<Check<Date>>
    decreases days - day
  {
    if day >= days then []
    else DayLog(day, 0, enabled, Constant(date, |enabled|)) + LaterLog(day + 1, prev(date), enabled, days, prev)
  }

  /** The checks of a whole sweep. On the first day each meter gets the clock's yesterday of its own
      round; the later days count back from yesterday in the round that ends the first day. */
  function SweepLog<Date>(yesterdays: seq<Date>, enabled: seq<bool>, days: nat, prev: Date -> Date): seq<Check<Date>>
    requires |yesterdays| > |enabled|
  {
    DayLog(0, 0, enabled, yesterdays[..|enabled|]) + LaterLog(1, prev(yesterdays[|enabled|]), enabled, days, prev)
  }

  lemma {:induction false} RunConcat<Date>(s: State<Date>, a: seq<Round<Date>>, b: seq<Round<Date>>, days: int,
      prev: Date -> Date)
    ensures var (t, log1) := Run(s, a, days, prev);
      var (u, log2) := Run(t, b, days, prev);
      Run(s, a + b, days, prev) == (u, log1 + log2)
    decreases |a|
  {
    if a == [] {
      var log := Run(s, b, days, prev).1;
      assert a + b == b && [] + log == log;
    } else {
      var (t, c) := Step(s, a[0], days, prev);
      assert (a + b)[0] == a[0] && (a + b)[1..] == a[1..] + b;
      RunConcat(t, a[1..], b, days, prev);
      var (t1, log1) := Run(t, a[1..], days, prev);
      var head := if c.Some? then [c.value] else [];
      assert head + (log1 + Run(t1, b, days, prev).1) == (head + log1) + Run(t1, b, days, prev).1;
    }
  }

  /** The first day: yesterday is taken anew in every round. */
  lemma {:induction false} WalkFirst<Date>(m: nat, date: Date, rs: seq<Round<Date>>, enabled: seq<bool>, days: nat,
      prev: Date -> Date)
    requires m <= |enabled| && |rs| == |enabled| - m && Steady(rs, enabled) && days > 0
    ensures var (t, log) := Run(State(m, 0, true, date), rs, days, prev);
      t.midx == |enabled| && t.day == 0 && t.first && log == DayLog(0, m, enabled, Yesterdays(rs))
    decreases |rs|
  {
    if rs == [] {
    } else {
      WalkFirst(m + 1, rs[0].yesterday, rs[1..], enabled, days, prev);
      assert Yesterdays(rs)[1..] == Yesterdays(rs[1..]);
    }
  }

  /** A later day keeps its date. */
  lemma {:induction false} WalkLater<Date>(m: nat, day: nat, date: Date, rs: seq<Round<Date>>, enabled: seq<bool>,
      days: nat, prev: Date -> Date)
    requires m <= |enabled| && |rs| == |enabled| - m && Steady(rs, enabled) && day < days
    ensures Run(State(m, day, false, date), rs, days, prev)
         == (State(|enabled|, day, false, date), DayLog(day, m, enabled, Constant(date, |enabled| - m)))
    decreases |rs|
  {
    if rs == [] {
    } else {
      WalkLater(m + 1, day, date, rs[1..], enabled, days, prev);
      assert Constant(date, |enabled| - m)[1..] == Constant(date, |enabled| - m - 1);
    }
  }

  lemma RunOne<Date>(s: State<Date>, r: Round<Date>, days: int, prev: Date -> Date)
    ensures var (t, c) := Step(s, r, days, prev); Run(s, [r], days, prev) == (t, if c.Some? then [c.value] else [])
  {
    var (t, c) := Step(s, r, days, prev);
    assert [r][1..] == [] && Run(t, [], days, prev) == (t, []);
    assert (if c.Some? then [c.value] else []) + [] == if c.Some? then [c.value] else [];
  }

  /** From the start of a later day to the start of the sweep. */
  lemma {:induction false} RunLater<Date>(day: nat, date: Date, rs: seq<Round<Date>>, enabled: seq<bool>, days: nat,
      prev: Date -> Date)
    requires 0 < day < days && |rs| == (days - day) * (|enabled| + 1) && Steady(rs, enabled)
    ensures var (t, log) := Run(State(0, day, false, date), rs, days, prev);
      t.midx == 0 && t.day == 0 && t.first && log == LaterLog(day, date, enabled, days, prev)
    decreases days - day
  {
    hide Run;
    hide DayLog;
    hide Constant;
    var n := |enabled|;
    Rounds(days - day, n);
    var a, r, b := rs[..n], rs[n], rs[n + 1..];
    assert rs == (a + [r]) + b;
    var s := State(0, day, false, date);
    WalkLater(0, day, date, a, enabled, days, prev);
    RunOne(State(n, day, false, date), r, days, prev);
    RunConcat(s, a, [r], days, prev);
    RunConcat(s, a + [r], b, days, prev);
    if day + 1 < days {
      RunLater(day + 1, prev(date), b, enabled, days, prev);
    } else {
      assert b == [];
      NoRounds(State(0, 0, true, date), day + 1, prev(date), enabled, days, prev);
    }
  }

  lemma Rounds(d: nat, n: nat)
    requires d > 0
    ensures d * (n + 1) == (n + 1) + (d - 1) * (n + 1) && (d - 1) * (n + 1) >= 0
  {
  }

  lemma RunSteady<Date>(date: Date, rs: seq<Round<Date>>, enabled: seq<bool>, days: nat, prev: Date -> Date)
    requires days > 0 && |rs| == days * (|enabled| + 1) && Steady(rs, enabled)
    ensures |rs| > |enabled|
    ensures var (t, log) := Run(State(0, 0, true, date), rs, days, prev);
      t.midx == 0 && t.day == 0 && t.first && log == SweepLog(Yesterdays(rs), enabled, days, prev)
  {
    hide Run;
    hide DayLog;
    hide LaterLog;
    var n := |enabled|;
    Rounds(days, n);
    var a, r, b := rs[..n], rs[n], rs[n + 1..];
    assert rs == (a + [r]) + b;
    var s := State(0, 0, true, date);
    var (t, log) := Run(s, a, days, prev);
    WalkFirst(0, date, a, enabled, days, prev);
    assert Yesterdays(rs)[..n] == Yesterdays(a);
    RunOne(t, r, days, prev);
    RunConcat(s, a, [r], days, prev);
    RunConcat(s, a + [r], b, days, prev);
    if days > 1 {
      RunLater(1, prev(r.yesterday), b, enabled, days, prev);
    } else {
      assert b == [];
      NoRounds(State(0, 0, true, r.yesterday), 1, prev(r.yesterday), enabled, days, prev);
    }
  }

  lemma NoRounds<Date>(s: State<Date>, day: nat, date: Date, enabled: seq<bool>, days: nat, prev: Date -> Date)
    requires day >= days
    ensures Run(s, [], days, prev) == (s, []) && LaterLog(day, date, enabled, days, prev) == []
  {
  }

  /** The rounds in which the sweep takes part. */
  function Active<Date>(rs: seq<Round<Date>>): seq<Round<Date>> {
    if rs == [] then [] else (if rs[0].active then [rs[0]] else []) + Active(rs[1..])
  }

  /** Switched off, the sweep stands still. */
  lemma {:induction false} RunActive<Date>(s: State<Date>, rs: seq<Round<Date>>, days: int, prev: Date -> Date)
    ensures Run(s, rs, days, prev) == Run(s, Active(rs), days, prev)
    decreases |rs|
  {
    if rs == [] {
    } else {
      RunActive(Step(s, rs[0], days, prev).0, rs[1..], days, prev);
      if rs[0].active {
        assert Active(rs)[1..] == Active(rs[1..]);
      } else {
        var log := Run(s, rs[1..], days, prev).1;
        assert Active(rs) == [] + Active(rs[1..]) == Active(rs[1..]) && [] + log == log;
      }
    }
  }

  // ---- the log holds every pair once, in order ----

  predicate Before<Date>(a: Check<Date>, b: Check<Date>) {
    a.day < b.day || (a.day == b.day && a.meter < b.meter)
  }

  /** Strictly ascending by day, then meter. */
  predicate Ordered<Date>(log: seq<Check<Date>>) {
    |log| <= 1 || (Before(log[0], log[1]) && Ordered(log[1..]))
  }

  predicate OnDay<Date>(log: seq<Check<Date>>, day: nat) {
    forall i :: 0 <= i < |log| ==> log[i].day == day
  }

  predicate FromDay<Date>(log: seq<Check<Date>>, day: nat) {
    forall i :: 0 <= i < |log| ==> log[i].day >= day
  }

  lemma FromConcat<Date>(a: seq<Check<Date>>, b: seq<Check<Date>>, day: nat)
    requires OnDay(a, day) && FromDay(b, day + 1)
    ensures FromDay(a + b, day)
  {
  }

  predicate Has<Date(==)>(log: seq<Check<Date>>, day: nat, m: nat) {
    exists i :: 0 <= i < |log| && log[i].day == day && log[i].meter == m
  }

  lemma {:induction false} DayLogExact<Date>(day: nat, m: nat, enabled: seq<bool>, dates: seq<Date>, d: nat, k: nat)
    requires m <= |enabled| && |dates| == |enabled| - m
    ensures Has(DayLog(day, m, enabled, dates), d, k) <==> d == day && m <= k < |enabled| && enabled[k]
    ensures Ordered(DayLog(day, m, enabled, dates))
    ensures OnDay(DayLog(day, m, enabled, dates), day)
    ensures DayLog(day, m, enabled, dates) != [] ==> DayLog(day, m, enabled, dates)[0].meter >= m
    decreases |dates|
  {
    if m == |enabled| {
    } else {
      var rest := DayLog(day, m + 1, enabled, dates[1..]);
      DayLogExact(day, m + 1, enabled, dates[1..], d, k);
      if enabled[m] {
        HasCons(Check(day, m, dates[0]), rest, d, k);
      } else {
        assert DayLog(day, m, enabled, dates) == [] + rest == rest;
      }
    }
  }

  lemma HasCons<Date>(c: Check<Date>, log: seq<Check<Date>>, d: nat, k: nat)
    requires Ordered(log) && (log != [] ==> Before(c, log[0]))
    ensures Has([c] + log, d, k) <==> (c.day == d && c.meter == k) || Has(log, d, k)
    ensures Ordered([c] + log)
  {
    var all := [c] + log;
    assert all[0] == c && all[1..] == log;
    assert forall i :: 0 <= i < |log| ==> all[i + 1] == log[i];
  }

  lemma {:induction false} HasConcat<Date>(a: seq<Check<Date>>, b: seq<Check<Date>>, day: nat, d: nat, k: nat)
    requires Ordered(a) && OnDay(a, day)
    requires Ordered(b) && FromDay(b, day + 1)
    ensures Has(a + b, d, k) <==> Has(a, d, k) || Has(b, d, k)
    ensures Ordered(a + b)
    decreases |a|
  {
    if a == [] {
      assert a + b == b;
    } else {
      HasConcat(a[1..], b, day, d, k);
      assert a == [a[0]] + a[1..] && a + b == [a[0]] + (a[1..] + b);
      HasCons(a[0], a[1..], d, k);
      HasCons(a[0], a[1..] + b, d, k);
    }
  }

  lemma {:induction false} LaterLogExact<Date>(day: nat, date: Date, enabled: seq<bool>, days: nat,
      prev: Date -> Date, d: nat, k: nat)
    ensures var log := LaterLog(day, date, enabled, days, prev);
      && (Has(log, d, k) <==> day <= d < days && k < |enabled| && enabled[k])
      && Ordered(log) && FromDay(log, day)
    decreases days - day
  {
    if day < days {
      var a := DayLog(day, 0, enabled, Constant(date, |enabled|));
      var b := LaterLog(day + 1, prev(date), enabled, days, prev);
      assert LaterLog(day, date, enabled, days, prev) == a + b;
      DayLogExact(day, 0, enabled, Constant(date, |enabled|), d, k);
      LaterLogExact(day + 1, prev(date), enabled, days, prev, d, k);
      hide LaterLog;
      hide DayLog;
      hide Constant;
      hide Ordered;
      hide Has;
      hide OnDay;
      hide FromDay;
      FromConcat(a, b, day);
      HasConcat(a, b, day, d, k);
    } else {
      EmptyLog<Date>(day, d, k);
    }
  }

  lemma EmptyLog<Date>(day: nat, d: nat, k: nat)
    ensures var log: seq<Check<Date>> := []; !Has(log, d, k) && Ordered(log) && FromDay(log, day)
  {
  }

  /** With at least one old day and fixed meters, `days * (n + 1)` active rounds from the start, with
      inactive ones anywhere between, bring the sweep back to the start. They check each enabled meter
      for each day exactly once, day by day and meter by meter, and no other. */
  lemma SweepCovers<Date>(date: Date, rs: seq<Round<Date>>, enabled: seq<bool>, days: nat, prev: Date -> Date,
      d: nat, k: nat)
    requires days > 0 && |Active(rs)| == days * (|enabled| + 1) && Steady(Active(rs), enabled)
    ensures |Active(rs)| > |enabled|
    ensures var (t, log) := Run(State(0, 0, true, date), rs, days, prev);
      && t.midx == 0 && t.day == 0 && t.first
      && log == SweepLog(Yesterdays(Active(rs)), enabled, days, prev)
      && (Has(log, d, k) <==> d < days && k < |enabled| && enabled[k])
      && Ordered(log)
  {
    RunActive(State(0, 0, true, date), rs, days, prev);
    RunSteady(date, Active(rs), enabled, days, prev);
    var ys, n := Yesterdays(Active(rs)), |enabled|;
    DayLogExact(0, 0, enabled, ys[..n], d, k);
    LaterLogExact(1, prev(ys[n]), enabled, days, prev, d, k);
    HasConcat(DayLog(0, 0, enabled, ys[..n]), LaterLog(1, prev(ys[n]), enabled, days, prev), 0, d, k);
  }
}
