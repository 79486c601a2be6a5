/** The report loop (`reportLoop`) as a deterministic step function. The
    goroutine, channel and 500 ms ticker become a list of events handled one
    at a time; the clock reading and the outcome of the mail send are inputs
    carried by each tick. */
module Scheduler {
  import opened Wrappers
  import Decimal

  /** An instant. Only passed through into reports; 0 stands for Go's zero
      `time.Time`, the value `lasttime` starts with. */
  type Time = int

  const ZeroTime: Time := 0

  /** The value of `lastsent` before any report: no day-hour key equals it. */
  const Sentinel: string := "-1--1"

  /** The part of the application configuration the loop reads. */
  datatype Config = Config(reportHours: seq<int>)

  /** Per-beacon submission counts, the day-hour key of the last report and
      the instant of the last report. */
  datatype State = State(counters: map<string, nat>, lastsent: string, lasttime: Time)

  const Init: State := State(map[], Sentinel, ZeroTime)

  /** A validated submission from a beacon, or a clock tick read as day of
      month, hour of day and instant, with the answer the mail transport
      would give if a report were sent on it. */
  datatype Event =
    | Submission(beacon: string)
    | Tick(day: int, hour: int, now: Time, delivered: bool)

  /** A compiled report: the counter snapshot and the window it covers,
      and whether its delivery succeeded. */
  datatype Report = Report(counts: map<string, nat>, from: Time, to: Time, delivered: bool)

  datatype Outcome = Outcome(next: State, report: Option<Report>)

  /** The count for a beacon, 0 when it has none. */
  function Count(m: map<string, nat>, a: string): nat {
    if a in m then m[a] else 0
  }

  /** `inArray`: a linear scan for `v` that stops at the first match. */
  method InArray(v: int, a: seq<int>) returns (found: bool)
    ensures found <==> v in a
  {
    var i := 0;
    while i < |a|
      invariant 0 <= i <= |a|
      invariant v !in a[..i]
    {
      if a[i] == v {
        return true;
      }
      i := i + 1;
    }
    assert a[..i] == a;
    return false;
  }

  /** The `"%d-%d"` rendering of day and hour that guards against sending
      twice in the same hour. */
  function DayHourKey(day: int, hour: int): string {
    Decimal.Itoa(day) + "-" + Decimal.Itoa(hour)
  }

  /** Handles one event. A submission bumps its beacon's counter. A tick
      outside the report hours, or in the hour already reported, changes
      nothing; any other tick compiles a report from the counters and the
      window since the last report, then clears the counters and records
      the key and the instant, whether or not the send succeeded. */
  function Step(cfg: Config, s: State, e: Event): (r: Outcome)
    ensures e.Submission? ==>
      && r.report == None
      && r.next.lastsent == s.lastsent
      && r.next.lasttime == s.lasttime
      && r.next.counters.Keys == s.counters.Keys + {e.beacon}
      && r.next.counters[e.beacon] == Count(s.counters, e.beacon) + 1
      && (forall k :: k in s.counters && k != e.beacon ==> r.next.counters[k] == s.counters[k])
    ensures e.Tick? ==>
      (r.report.Some? <==> e.hour in cfg.reportHours && DayHourKey(e.day, e.hour) != s.lastsent)
    ensures e.Tick? && r.report.None? ==> r.next == s
    ensures e.Tick? && r.report.Some? ==>
      && r.report.value == Report(s.counters, s.lasttime, e.now, e.delivered)
      && r.next.counters == map[]
      && r.next.lastsent == DayHourKey(e.day, e.hour)
      && r.next.lasttime == e.now
  {
    match e
    case Submission(a) =>
      Outcome(s.(counters := s.counters[a := Count(s.counters, a) + 1]), None)
    case Tick(day, hour, now, delivered) =>
      if hour !in cfg.reportHours then Outcome(s, None)
      else
        var key := DayHourKey(day, hour);
        if key == s.lastsent then Outcome(s, None)
        else
          var report := Report(s.counters, s.lasttime, now, delivered);
          Outcome(State(map[], key, now), Some(report))
  }

  /** The result of feeding a list of events to the loop. */
  datatype Trace = Trace(final: State, reports: seq<Report>)

  function Ticks(events: seq<Event>): nat
    decreases |events|
  {
    if events == [] then 0 else (if events[0].Tick? then 1 else 0) + Ticks(events[1..])
  }

  /** The report a step compiled, as a list of zero or one. */
  function Emitted(o: Outcome): seq<Report> {
    if o.report.Some? then [o.report.value] else []
  }

  /** Runs the loop over `events` from state `s`, collecting reports in the
      order they are compiled. */
  function Run(cfg: Config, s: State, events: seq<Event>): Trace
    decreases |events|
  {
    if events == [] then Trace(s, [])
    else
      var o := Step(cfg, s, events[0]);
      var rest := Run(cfg, o.next, events[1..]);
      Trace(rest.final, Emitted(o) + rest.reports)
  }

  /** Each report comes from its own tick: a run compiles at most as many
      reports as it has ticks. */
  lemma {:induction false} ReportsPerTick(cfg: Config, s: State, events: seq<Event>)
    ensures |Run(cfg, s, events).reports| <= Ticks(events)
    decreases |events|
  {
    if events != [] {
      ReportsPerTick(cfg, Step(cfg, s, events[0]).next, events[1..]);
    }
  }

  /** Number of submissions from beacon `a` among the events. */
  function Submissions(events: seq<Event>, a: string): nat
    decreases |events|
  {
    if events == [] then 0
    else (if events[0] == Submission(a) then 1 else 0) + Submissions(events[1..], a)
  }

  /** Total count for beacon `a` over a list of reports. */
  function Reported(reports: seq<Report>, a: string): nat
    decreases |reports|
  {
    if reports == [] then 0 else Count(reports[0].counts, a) + Reported(reports[1..], a)
  }

  /** Conservation: every submission from `a` is counted in exactly one
      report or is still pending in the final counters; none is lost and
      none is counted twice, including in reports whose send failed. */
  lemma {:induction false} Conservation(cfg: Config, s: State, events: seq<Event>, a: string)
    ensures Count(s.counters, a) + Submissions(events, a)
            == Reported(Run(cfg, s, events).reports, a) + Count(Run(cfg, s, events).final.counters, a)
    decreases |events|
  {
    if events != [] {
      var o := Step(cfg, s, events[0]);
      var rest := Run(cfg, o.next, events[1..]);
      Conservation(cfg, o.next, events[1..], a);
      var emitted := Emitted(o);
      assert Run(cfg, s, events).reports == emitted + rest.reports;
      if o.report.Some? {
        assert (emitted + rest.reports)[1..] == rest.reports;
      } else {
        assert emitted + rest.reports == rest.reports;
      }
    }
  }

  /** While no report is compiled, the key and instant of the last report
      stay put and the counters grow by exactly the submissions seen. */
  lemma {:induction false} QuietRun(cfg: Config, s: State, events: seq<Event>)
    requires Run(cfg, s, events).reports == []
    ensures Run(cfg, s, events).final.lastsent == s.lastsent
    ensures Run(cfg, s, events).final.lasttime == s.lasttime
    ensures forall a :: Count(Run(cfg, s, events).final.counters, a)
                        == Count(s.counters, a) + Submissions(events, a)
    decreases |events|
  {
    if events != [] {
      var o := Step(cfg, s, events[0]);
      assert o.report.None?;
      QuietRun(cfg, o.next, events[1..]);
    }
  }

  /** One report window: starting right after a report (or at start-up),
      with counters empty, a stretch of events that compiles no report
      followed by a reporting tick yields a report whose count for every
      beacon is the number of its submissions in the stretch, over the
      window from the previous report's instant to the tick's. */
  lemma WindowReport(cfg: Config, s: State, quiet: seq<Event>, tick: Event)
    requires s.counters == map[]
    requires Run(cfg, s, quiet).reports == []
    requires Step(cfg, Run(cfg, s, quiet).final, tick).report.Some?
    ensures var r := Step(cfg, Run(cfg, s, quiet).final, tick).report.value;
      && r.from == s.lasttime
      && r.to == tick.now
      && forall a :: Count(r.counts, a) == Submissions(quiet, a)
  {
    QuietRun(cfg, s, quiet);
  }

  /** Running two lists one after the other is running their concatenation:
      the second starts where the first ends, and the reports follow on. */
  lemma {:induction false} RunAppend(cfg: Config, s: State, a: seq<Event>, b: seq<Event>)
    ensures Run(cfg, s, a + b).final == Run(cfg, Run(cfg, s, a).final, b).final
    ensures Run(cfg, s, a + b).reports
            == Run(cfg, s, a).reports + Run(cfg, Run(cfg, s, a).final, b).reports
    decreases |a|
  {
    if a == [] {
      assert a + b == b;
    } else {
      var o := Step(cfg, s, a[0]);
      var emitted := Emitted(o);
      var t := a[1..];
      var ab := a + b;
      assert ab[0] == a[0] && ab[1..] == t + b;
      var whole := Run(cfg, s, ab);
      var first := Run(cfg, s, a);
      var innerFirst := Run(cfg, o.next, t);
      var innerWhole := Run(cfg, o.next, t + b);
      var second := Run(cfg, innerFirst.final, b);
      RunUnfold(cfg, s, a);
      RunUnfold(cfg, s, ab);
      assert first.final == innerFirst.final && first.reports == emitted + innerFirst.reports;
      assert whole.final == innerWhole.final && whole.reports == emitted + innerWhole.reports;
      RunAppend(cfg, o.next, t, b);
      assert innerWhole.final == second.final;
      assert innerWhole.reports == innerFirst.reports + second.reports;
      ConcatAssoc(emitted, innerFirst.reports, second.reports);
    }
  }

  /** Proof step for `RunAppend` and `ReportWindows`: concatenation is
      associative, stated apart so the solver meets it in a small context. */
  lemma ConcatAssoc<T>(x: seq<T>, y: seq<T>, z: seq<T>)
    ensures x + (y + z) == (x + y) + z
  {
  }

  /** Proof step for `RunAppend`: one unfolding of `Run` on a non-empty list. */
  lemma RunUnfold(cfg: Config, s: State, events: seq<Event>)
    requires events != []
    ensures Run(cfg, s, events).final == Run(cfg, Step(cfg, s, events[0]).next, events[1..]).final
    ensures Run(cfg, s, events).reports
            == Emitted(Step(cfg, s, events[0])) + Run(cfg, Step(cfg, s, events[0]).next, events[1..]).reports
  {
  }

  /** `lasttime` is the end of the window of the last report compiled, or
      its starting value when none was. */
  lemma {:induction false} RunLasttime(cfg: Config, s: State, events: seq<Event>)
    ensures var t := Run(cfg, s, events);
      if t.reports == [] then t.final.lasttime == s.lasttime
      else t.final.lasttime == t.reports[|t.reports| - 1].to
    decreases |events|
  {
    if events != [] {
      RunLasttime(cfg, Step(cfg, s, events[0]).next, events[1..]);
    }
  }

  /** Consecutive windows of one run. Let `prior` leave the counters empty
      (it ends with a report, or is empty from start-up), then a stretch
      `quiet` that compiles nothing, then a reporting `tick`, then anything.
      If `prior` compiled k reports, report k of the whole run counts for
      every beacon exactly its submissions in `quiet`, ends at the tick's
      instant, and starts where report k-1 ended (or at the starting
      `lasttime` when k is 0). */
  lemma ReportWindows(cfg: Config, s: State, prior: seq<Event>, quiet: seq<Event>,
                      tick: Event, rest: seq<Event>)
    requires Run(cfg, s, prior).final.counters == map[]
    requires Run(cfg, Run(cfg, s, prior).final, quiet).reports == []
    requires Step(cfg, Run(cfg, Run(cfg, s, prior).final, quiet).final, tick).report.Some?
    ensures var t := Run(cfg, s, prior + quiet + [tick] + rest);
      var k := |Run(cfg, s, prior).reports|;
      && k < |t.reports|
      && t.reports[k].to == tick.now
      && (forall a :: Count(t.reports[k].counts, a) == Submissions(quiet, a))
      && (k == 0 ==> t.reports[k].from == s.lasttime)
      && (k > 0 ==> t.reports[k].from == t.reports[k - 1].to)
  {
    var mid := Run(cfg, s, prior);
    var q := Run(cfg, mid.final, quiet);
    var o := Step(cfg, q.final, tick);
    var tail := Run(cfg, o.next, rest);
    ConcatAssoc(prior + quiet, [tick], rest);
    ConcatAssoc(prior, quiet, [tick] + rest);
    RunAppend(cfg, s, prior, quiet + ([tick] + rest));
    RunAppend(cfg, mid.final, quiet, [tick] + rest);
    assert ([tick] + rest)[0] == tick && ([tick] + rest)[1..] == rest;
    var t := Run(cfg, s, prior + quiet + [tick] + rest);
    assert t.reports == mid.reports + ([] + ([o.report.value] + tail.reports));
    var k := |mid.reports|;
    assert t.reports[k] == o.report.value;
    WindowReport(cfg, mid.final, quiet, tick);
    RunLasttime(cfg, s, prior);
    if k > 0 {
      assert t.reports[k - 1] == mid.reports[k - 1];
    }
  }

  /** Every beacon the counters list has at least one submission. */
  predicate Listed(m: map<string, nat>) {
    forall a :: a in m ==> m[a] >= 1
  }

  /** Counters only ever list beacons that submitted, so no report lists a
      beacon with a count of 0. */
  lemma {:induction false} RunListed(cfg: Config, s: State, events: seq<Event>)
    requires Listed(s.counters)
    ensures Listed(Run(cfg, s, events).final.counters)
    ensures forall i :: 0 <= i < |Run(cfg, s, events).reports| ==>
      Listed(Run(cfg, s, events).reports[i].counts)
    decreases |events|
  {
    if events != [] {
      var o := Step(cfg, s, events[0]);
      RunListed(cfg, o.next, events[1..]);
      var rest := Run(cfg, o.next, events[1..]).reports;
      var emitted: seq<Report> := Emitted(o);
      assert Run(cfg, s, events).reports == emitted + rest;
      forall i | 0 <= i < |emitted + rest|
        ensures Listed((emitted + rest)[i].counts)
      {
        if i >= |emitted| {
          assert (emitted + rest)[i] == rest[i - |emitted|];
        }
      }
    }
  }

  /** Once the hour (day, hour) has been reported, no run of events whose
      ticks all fall in that hour compiles another report. */
  lemma {:induction false} SameHourSilent(cfg: Config, s: State, events: seq<Event>, day: int, hour: int)
    requires s.lastsent == DayHourKey(day, hour)
    requires forall i :: 0 <= i < |events| && events[i].Tick? ==>
      events[i].day == day && events[i].hour == hour
    ensures Run(cfg, s, events).reports == []
    ensures Run(cfg, s, events).final.lastsent == DayHourKey(day, hour)
    decreases |events|
  {
    if events != [] {
      var o := Step(cfg, s, events[0]);
      assert o.report.None?;
      forall i | 0 <= i < |events[1..]| && events[1..][i].Tick?
        ensures events[1..][i].day == day && events[1..][i].hour == hour
      {
        assert events[1..][i] == events[i + 1];
      }
      SameHourSilent(cfg, o.next, events[1..], day, hour);
    }
  }

  /** At most one report per (day, hour): however many ticks fall in the
      same hour, interleaved with any submissions, at most one of them
      compiles a report. */
  lemma {:induction false} AtMostOneReportPerHour(cfg: Config, s: State, events: seq<Event>,
                                                  day: int, hour: int)
    requires forall i :: 0 <= i < |events| && events[i].Tick? ==>
      events[i].day == day && events[i].hour == hour
    ensures |Run(cfg, s, events).reports| <= 1
    decreases |events|
  {
    if events != [] {
      var o := Step(cfg, s, events[0]);
      forall i | 0 <= i < |events[1..]| && events[1..][i].Tick?
        ensures events[1..][i].day == day && events[1..][i].hour == hour
      {
        assert events[1..][i] == events[i + 1];
      }
      if o.report.Some? {
        SameHourSilent(cfg, o.next, events[1..], day, hour);
      } else {
        AtMostOneReportPerHour(cfg, o.next, events[1..], day, hour);
      }
    }
  }

  /** The start-up value of `lastsent` is not the key of any real hour, since
      a key for a non-negative day starts with a digit. */
  lemma SentinelIsNoKey(day: int, hour: int)
    requires day >= 0 && hour >= 0
    ensures DayHourKey(day, hour) != Sentinel
  {
    assert DayHourKey(day, hour)[0] == Decimal.Itoa(day)[0];
  }

  /** So while no report has been compiled since start-up (`lastsent` still
      holds the sentinel), the first tick in a report hour always reports,
      whatever submissions are pending, and even when none are. */
  lemma FirstTickReports(cfg: Config, s: State, day: int, hour: int, now: Time, delivered: bool)
    requires s.lastsent == Sentinel
    requires 1 <= day <= 31 && 0 <= hour <= 23
    requires hour in cfg.reportHours
    ensures Step(cfg, s, Tick(day, hour, now, delivered)).report
            == Some(Report(s.counters, s.lasttime, now, delivered))
  {
    SentinelIsNoKey(day, hour);
  }

  /** Day-hour keys of real clock readings identify the hour: two readings
      share a key only when day and hour both agree. */
  lemma DayHourKeyInjective(d1: int, h1: int, d2: int, h2: int)
    requires d1 >= 0 && h1 >= 0 && d2 >= 0 && h2 >= 0
    ensures DayHourKey(d1, h1) == DayHourKey(d2, h2) <==> d1 == d2 && h1 == h2
  {
    var a1, b1 := Decimal.Itoa(d1), Decimal.Itoa(h1);
    var a2, b2 := Decimal.Itoa(d2), Decimal.Itoa(h2);
    var k1, k2 := DayHourKey(d1, h1), DayHourKey(d2, h2);
    if k1 == k2 {
      DigitsBeforeDash(a1, a2, k1);
      assert b1 == k1[|a1| + 1..] && b2 == k2[|a2| + 1..];
      Decimal.ItoaInjective(d1, d2);
      Decimal.ItoaInjective(h1, h2);
    }
  }

  /** In a string made of a digit run, a dash and more, the dash ends the run:
      two digit runs followed by a dash at the same string have equal length. */
  lemma DigitsBeforeDash(a1: string, a2: string, k: string)
    requires Decimal.AllDigits(a1) && Decimal.AllDigits(a2)
    requires |a1| < |k| && |a2| < |k|
    requires k[..|a1|] == a1 && k[|a1|] == '-'
    requires k[..|a2|] == a2 && k[|a2|] == '-'
    ensures |a1| == |a2|
  {
  }

  /** The outcome of the mail send is never read back: the next state is the
      same whether delivery succeeded or failed. */
  lemma DeliveryDoesNotMatter(cfg: Config, s: State, day: int, hour: int, now: Time)
    ensures Step(cfg, s, Tick(day, hour, now, true)).next
            == Step(cfg, s, Tick(day, hour, now, false)).next
  {
  }

  /** The example run: reports only at 9 o'clock, three submissions from
      "A" and one from "B", then ticks at 08:59, 09:00, 09:15 and 10:00 on
      the first of the month. Only the 09:00 tick reports, listing A=3 and
      B=1 over the window from start-up; afterwards the counters are empty. */
  lemma ExampleRun()
    ensures var cfg := Config([9]);
      var events := [Submission("A"), Submission("A"), Submission("A"), Submission("B"),
                     Tick(1, 8, 859, true), Tick(1, 9, 900, false),
                     Tick(1, 9, 915, true), Tick(1, 10, 1000, true)];
      Run(cfg, Init, events)
      == Trace(State(map[], DayHourKey(1, 9), 900),
               [Report(map["A" := 3, "B" := 1], ZeroTime, 900, false)])
  {
    var cfg := Config([9]);
    var key := DayHourKey(1, 9);
    SentinelIsNoKey(1, 9);
    var t8, t9, t915, t10 := Tick(1, 8, 859, true), Tick(1, 9, 900, false),
                             Tick(1, 9, 915, true), Tick(1, 10, 1000, true);
    var after := State(map[], key, 900);
    var report := Report(map["A" := 3, "B" := 1], ZeroTime, 900, false);
    assert Run(cfg, after, [t10]) == Trace(after, []);
    assert Run(cfg, after, [t915, t10]) == Trace(after, []);
    var counted := State(map["A" := 3, "B" := 1], Sentinel, ZeroTime);
    assert Run(cfg, counted, [t9, t915, t10]) == Trace(after, [report]);
    assert Run(cfg, counted, [t8, t9, t915, t10]) == Trace(after, [report]);
    var s3 := State(map["A" := 3], Sentinel, ZeroTime);
    assert Step(cfg, s3, Submission("B")).next == counted;
    var s2 := State(map["A" := 2], Sentinel, ZeroTime);
    assert Step(cfg, s2, Submission("A")).next == s3;
    var s1 := State(map["A" := 1], Sentinel, ZeroTime);
    assert Step(cfg, s1, Submission("A")).next == s2;
    assert Step(cfg, Init, Submission("A")).next == s1;
    assert [Submission("A"), Submission("A"), Submission("A"), Submission("B"), t8, t9, t915, t10][1..]
           == [Submission("A"), Submission("A"), Submission("B"), t8, t9, t915, t10];
    assert [Submission("A"), Submission("A"), Submission("B"), t8, t9, t915, t10][1..]
           == [Submission("A"), Submission("B"), t8, t9, t915, t10];
    assert [Submission("A"), Submission("B"), t8, t9, t915, t10][1..]
           == [Submission("B"), t8, t9, t915, t10];
    assert [Submission("B"), t8, t9, t915, t10][1..] == [t8, t9, t915, t10];
  }
}
