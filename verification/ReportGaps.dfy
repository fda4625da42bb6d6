/** For every pair of intervals some run has two reports exactly min + max apart. */
module ReportGaps {
  import opened Bytes
  import opened Reporting
  import opened ReportRuns

  /** Some run leads from one moment to another. */
  ghost predicate Reaches(m: Moment, n: Moment)
  {
    exists ms: seq<Moment>, evs: seq<Event> :: Run(ms, evs) && ms[0] == m && ms[|evs|] == n
  }

  lemma Stays(m: Moment)
    ensures Reaches(m, m)
  {
    var ms: seq<Moment>, evs: seq<Event> := [m], [];
    assert Run(ms, evs) && ms[0] == m && ms[|evs|] == m;
  }

  lemma Goes(m: Moment, n: Moment, ev: Event, k: Moment)
    requires Reaches(m, n) && Step(n, ev, k)
    ensures Reaches(m, k)
  {
    hide Step;
    var ms: seq<Moment>, evs: seq<Event> :| Run(ms, evs) && ms[0] == m && ms[|evs|] == n;
    var more, all := ms + [k], evs + [ev];
    forall i | 0 <= i < |all|
      ensures Step(more[i], all[i], more[i + 1])
    {
      if i < |evs| {
        assert Step(ms[i], evs[i], ms[i + 1]);
      }
    }
    assert Run(more, all) && more[0] == m && more[|all|] == k;
  }

  /** The i-th multiple of an interval of x seconds after a start. */
  function At(start: nat, x: nat, i: nat): nat { start + 1000 * (x * i) }

  lemma NextAt(start: nat, x: nat, i: nat)
    ensures At(start, x, i + 1) == At(start, x, i) + 1000 * x
    ensures At(start, x, 0) == start
  {
    assert x * (i + 1) == x * i + x;
  }

  /** Timers that have run since start with a report at every period of the min timer. */
  predicate Busy(m: Moment, start: nat, i: nat, j: nat)
  {
    var e := m.e;
    Live(e) && e.kind.Discrete? && 0 < e.min < e.max < NEVER && j > 0
    && m.now == At(start, e.min, i) && e.minDue == Some(At(start, e.min, i + 1)) && e.maxDue == Some(At(start, e.max, j))
    && At(start, e.max, j - 1) <= m.now < At(start, e.max, j)
    && (i > 0 ==> e.sent != [] && Last(e) == e.posted == m.now && !Changed(e))
  }

  /** A value that differs from the one last reported. */
  function Another(e: Entry): seq<byte>
    requires Shaped(e)
  {
    if e.prev[0] == 0 then [1] else [0]
  }

  lemma AnotherChanges(e: Entry)
    requires Live(e) && e.kind.Discrete?
    ensures var f := e.(data := Some(Another(e))); Live(f) && Changed(f)
  {
    assert e.prev[..1][0] == e.prev[0];
  }

  /** Only data, prev and threshold decide whether something changed. */
  lemma SameChange(e: Entry, f: Entry)
    requires Live(e) && Shaped(f) && e.data == f.data && e.prev == f.prev && e.change == f.change
    requires e.kind.Discrete? && f.kind.Discrete?
    ensures Changed(e) == Changed(f)
  {
  }

  /** The max timer runs out less than min after a report, or at it: nothing but a new period. */
  lemma MaxSilent(m: Moment)
    requires Live(m.e) && m.e.maxDue == Some(m.now) && m.now - m.e.posted <= 1000 * m.e.min
    ensures Step(m, MaxTimer, m.(e := m.e.(maxDue := Some(m.now + 1000 * m.e.max))))
  {
  }

  /** The min timer reports a change. */
  lemma MinReports(m: Moment) returns (n: Moment)
    requires Live(m.e) && m.e.kind.Discrete? && m.e.minDue == Some(m.now) && Changed(m.e)
    ensures Step(m, MinTimer, n) && n.now == m.now
    ensures Live(n.e) && !Changed(n.e) && n.e.sent != [] && Last(n.e) == n.e.posted == m.now
    ensures n.e == m.e.(prev := n.e.prev, sent := n.e.sent, posted := m.now, minDue := Some(m.now + 1000 * m.e.min))
  {
    n := Next(m, MinTimer);
    ReportOf(m.e, m.now);
    ReportSettles(m.e, m.now);
  }

  /** One more period of the min timer: a new value, the max timer if it comes first or together, a report. */
  lemma BusyStep(m0: Moment, m: Moment, start: nat, i: nat, j: nat) returns (n: Moment, j': nat)
    requires Reaches(m0, m) && Busy(m, start, i, j)
    ensures Reaches(m0, n) && Busy(n, start, i + 1, j') && n.e.min == m.e.min && n.e.max == m.e.max
  {
    hide At, Reaches, Changed, Reported;
    var x: nat, y: nat := m.e.min, m.e.max;
    NextAt(start, x, i);
    NextAt(start, x, i + 1);
    NextAt(start, y, j);
    NextAt(start, y, j - 1);
    NextAt(start, y, 0);
    NextAt(start, x, 0);
    var t := At(start, x, i + 1);
    AnotherChanges(m.e);
    var changed := m.(e := m.e.(data := Some(Another(m.e))));
    Goes(m0, m, Value(Another(m.e)), changed);
    j' := j;
    var ready := changed;
    if At(start, y, j) < t {
      var due := changed.(now := At(start, y, j));
      Goes(m0, changed, Wait(due.now), due);
      FirstPeriods(start, x, y, i, j);
      MaxSilent(due);
      ready := due.(e := due.e.(maxDue := Some(due.now + 1000 * y)));
      Goes(m0, due, MaxTimer, ready);
      j' := j + 1;
    }
    SameChange(changed.e, ready.e);
    var atMin := ready.(now := t);
    Goes(m0, ready, Wait(t), atMin);
    n := MinReports(atMin);
    Goes(m0, atMin, MinTimer, n);
    if At(start, y, j') == t {
      NextAt(start, y, j');
      MaxSilent(n);
      var reported := n;
      n := n.(e := n.e.(maxDue := Some(t + 1000 * y)));
      SameChange(reported.e, n.e);
      Goes(m0, reported, MaxTimer, n);
      j' := j' + 1;
    }
  }

  lemma FirstPeriods(start: nat, x: nat, y: nat, i: nat, j: nat)
    requires 0 < x < y && j > 0 && At(start, y, j) < At(start, x, i + 1)
    ensures i > 0
  {
    if i == 0 {
      Ordered(1, j, y);
    }
  }

  lemma BusyRun(m0: Moment, m: Moment, start: nat, k: nat) returns (n: Moment, j: nat)
    requires Reaches(m0, m) && Busy(m, start, 0, 1)
    ensures Reaches(m0, n) && Busy(n, start, k, j) && n.e.min == m.e.min && n.e.max == m.e.max
  {
    hide Reaches, Busy;
    n, j := m, 1;
    for i := 0 to k
      invariant Reaches(m0, n) && Busy(n, start, i, j) && n.e.min == m.e.min && n.e.max == m.e.max
    {
      n, j := BusyStep(m0, n, start, i, j);
    }
  }

  lemma Ordered(a: nat, b: nat, x: nat)
    requires a <= b
    ensures x * a <= x * b
  {
  }

  /** After y - 1 periods of the min timer both timers are due at the same time. */
  lemma DueTogether(x: nat, y: nat, j: nat)
    requires 0 < x < y && j > 0 && y * (j - 1) <= x * (y - 1) < y * j
    ensures j == x && x * (y - 1) + x == y * x
  {
    assert x * (y - 1) == x * y - x && y * (j - 1) == y * j - y && x * y == y * x;
    assert y * (x - 1) == y * x - y && y * (x + 1) == y * x + y;
    if j < x {
      Ordered(j, x - 1, y);
    } else if j > x {
      Ordered(x + 1, j, y);
    }
  }

  /** Without a change the min timer goes on in silence until a given moment. */
  lemma Quiet(m0: Moment, m: Moment, until: nat) returns (n: Moment)
    requires Reaches(m0, m) && Live(m.e) && m.e.kind.Discrete? && !Changed(m.e) && m.e.min != m.e.max
    requires 0 < m.e.min && m.e.minDue.Some? && m.now <= m.e.minDue.value && m.e.maxDue == Some(until) && m.now <= until
    ensures Reaches(m0, n) && n.now == until && n.e == m.e.(minDue := n.e.minDue)
    decreases until + 1000 * m.e.min - m.e.minDue.value
  {
    hide Reaches, Changed, Reported;
    if m.e.minDue.value < until {
      var due := m.(now := m.e.minDue.value);
      Goes(m0, m, Wait(due.now), due);
      var on := due.(e := due.e.(minDue := Some(due.now + 1000 * m.e.min)));
      Goes(m0, due, MinTimer, on);
      SameChange(m.e, on.e);
      n := Quiet(m0, on, until);
    } else {
      n := m.(now := until);
      Goes(m0, m, Wait(until), n);
    }
  }

  /** Whatever the intervals with 0 < min < max: starting the timers of an entry with discrete values, some run has
      two consecutive reports exactly min + max apart. */
  lemma WidestGapAttained(m0: Moment) returns (n: Moment)
    requires Fresh(m0) && m0.e.kind.Discrete? && 0 < m0.e.min < m0.e.max < NEVER
    ensures Reaches(m0, n) && |n.e.sent| >= 2
    ensures var k := |n.e.sent|;
      n.e.sent[k - 1] == n.e.sent[k - 2] + 1000 * m0.e.min + 1000 * m0.e.max
  {
    hide Reaches, Changed, Reported, At;
    var x: nat, y: nat, start := m0.e.min, m0.e.max, m0.now;
    NextAt(start, x, 0);
    NextAt(start, y, 0);
    Stays(m0);
    var m := StartTimers(m0);
    Goes(m0, m0, Handler(false), m);
    var late, j := BusyRun(m0, m, start, y - 1);
    BothDue(start, x, y, j);
    var t := At(start, x, y);
    var due := late.(now := t);
    Goes(m0, late, Wait(t), due);
    MaxSilent(due);
    var passed := due.(e := due.e.(maxDue := Some(t + 1000 * y)));
    Goes(m0, due, MaxTimer, passed);
    SameChange(late.e, passed.e);
    var quiet := Quiet(m0, passed, t + 1000 * y);
    n := Next(quiet, MaxTimer);
    ReportOf(quiet.e.(minDue := None), quiet.now);
    Goes(m0, quiet, MaxTimer, n);
  }

  lemma StartTimers(m0: Moment) returns (m: Moment)
    requires Fresh(m0) && m0.e.kind.Discrete? && 0 < m0.e.min < m0.e.max < NEVER
    ensures Step(m0, Handler(false), m) && Busy(m, m0.now, 0, 1) && m.e.min == m0.e.min && m.e.max == m0.e.max
  {
    NextAt(m0.now, m0.e.min, 0);
    NextAt(m0.now, m0.e.max, 0);
    hide At, Changed;
    m := m0.(e := m0.e.(minDue := Some(m0.now + 1000 * m0.e.min), maxDue := Some(m0.now + 1000 * m0.e.max)));
  }

  lemma BothDue(start: nat, x: nat, y: nat, j: nat)
    requires 0 < x < y && j > 0
    requires At(start, y, j - 1) <= At(start, x, y - 1) < At(start, y, j)
    ensures At(start, y, j) == At(start, x, y) == At(start, x, y - 1) + 1000 * x
  {
    DueTogether(x, y, j);
    NextAt(start, x, y - 1);
  }
}
