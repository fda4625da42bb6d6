/** Runs of one table entry that stays bound: how far apart its reports are. */
module ReportRuns {
  import opened Bytes
  import opened Reporting

  /** Handler(skipped) is a pass of the main loop; skipped when an earlier entry made it give up its first half. */
  datatype Event = Wait(until: nat) | Value(data: seq<byte>) | MinTimer | MaxTimer | Handler(skipped: bool)

  datatype Moment = Moment(e: Entry, now: nat)

  /** Timers run out exactly when they are due: time cannot pass them by. */
  predicate Enabled(m: Moment, ev: Event)
  {
    match ev
    case Wait(until) =>
      m.now <= until && (m.e.minDue.Some? ==> until <= m.e.minDue.value)
      && (m.e.maxDue.Some? ==> until <= m.e.maxDue.value)
    case Value(data) => m.e.kind.Uint48? ==> |data| == 6
    case MinTimer => m.e.minDue == Some(m.now)
    case MaxTimer => m.e.maxDue == Some(m.now)
    case Handler(_) => true
  }

  function Next(m: Moment, ev: Event): Moment
    requires Shaped(m.e) && Enabled(m, ev)
  {
    match ev
    case Wait(until) => m.(now := until)
    case Value(data) => m.(e := m.e.(data := Some(data)))
    case MinTimer => m.(e := MinFired(m.e, m.now))
    case MaxTimer => m.(e := MaxFired(m.e, m.now))
    case Handler(skipped) =>
      StillShaped(m.e, m.now);
      m.(e := TimersStarted(if skipped then m.e else NoMinChecked(m.e, m.now), m.now))
  }

  lemma StillShaped(e: Entry, now: nat)
    requires Shaped(e)
    ensures Shaped(NoMinChecked(e, now))
  {
    NoMinShaped(e, now);
  }

  ghost predicate Step(m: Moment, ev: Event, n: Moment)
  {
    Shaped(m.e) && Enabled(m, ev) && n == Next(m, ev)
  }

  ghost predicate Run(ms: seq<Moment>, evs: seq<Event>)
  {
    |ms| == |evs| + 1 && forall i :: 0 <= i < |evs| ==> Step(ms[i], evs[i], ms[i + 1])
  }

  predicate Live(e: Entry)
  {
    Shaped(e) && e.used && e.bound && e.data.Some?
  }

  /** An entry as the start-up code leaves it. */
  predicate Fresh(m: Moment)
  {
    Live(m.e) && m.e.minDue.None? && m.e.maxDue.None? && m.e.sent == [] && m.e.posted <= m.now
  }

  function Last(e: Entry): nat
    requires e.sent != []
  {
    e.sent[|e.sent| - 1]
  }

  predicate Gaps(sent: seq<nat>, least: nat, most: nat)
  {
    forall i :: 0 < i < |sent| ==> least <= sent[i] - sent[i - 1] <= most
  }

  lemma OneMoreGap(sent: seq<nat>, now: nat, least: nat, most: nat)
    requires Gaps(sent, least, most) && (sent != [] ==> least <= now - sent[|sent| - 1] <= most)
    ensures Gaps(sent + [now], least, most)
  {
  }

  lemma ReportOf(e: Entry, now: nat)
    requires Live(e)
    ensures var r := Reported(e, now);
      Live(r) && r.sent == e.sent + [now] && Last(r) == now
      && r == e.(prev := r.prev, sent := r.sent)
  {
  }

  // ----- 0 < min < max -----

  predicate Spaced(m: Moment)
  {
    var e, now := m.e, m.now;
    var least, most := 1000 * e.min, 1000 * e.max;
    Live(e) && 0 < e.min < e.max < NEVER && e.posted <= now
    && (e.maxDue.None? ==> e.sent == [] && e.minDue.None?)
    && (e.minDue.Some? ==> now <= e.minDue.value && (e.sent != [] ==> Last(e) + least <= e.minDue.value))
    && (e.maxDue.Some? ==> now <= e.maxDue.value <= now + most
                            && (e.sent == [] ==> e.posted + most <= e.maxDue.value))
    && (e.sent != [] ==> e.posted <= Last(e) <= now && e.maxDue.value <= Last(e) + least + most
                         && (Last(e) == e.posted || Last(e) + most <= e.maxDue.value))
    && Gaps(e.sent, least, least + most)
  }

  lemma MinKeepsSpacing(m: Moment)
    requires Spaced(m) && m.e.minDue == Some(m.now)
    ensures Spaced(Moment(MinFired(m.e, m.now), m.now))
  {
    hide Reported, Changed, Gaps;
    ReportOf(m.e, m.now);
    OneMoreGapIf(m);
  }

  lemma OneMoreGapIf(m: Moment)
    requires Spaced(m)
    ensures m.e.sent == [] || m.now >= Last(m.e) + 1000 * m.e.min ==>
              Gaps(m.e.sent + [m.now], 1000 * m.e.min, 1000 * m.e.min + 1000 * m.e.max)
  {
    if m.e.sent == [] || m.now >= Last(m.e) + 1000 * m.e.min {
      OneMoreGap(m.e.sent, m.now, 1000 * m.e.min, 1000 * m.e.min + 1000 * m.e.max);
    }
  }

  /** The max timer reports: the one before is at least min ago. */
  lemma MaxReports(m: Moment)
    requires Spaced(m) && m.e.maxDue == Some(m.now) && m.now - m.e.posted > 1000 * m.e.min
    ensures m.e.sent == [] || m.now >= Last(m.e) + 1000 * m.e.min
    ensures Spaced(Moment(Reported(m.e.(minDue := None), m.now).(maxDue := Some(m.now + 1000 * m.e.max)), m.now))
  {
    hide Reported, Gaps;
    ReportOf(m.e.(minDue := None), m.now);
    OneMoreGapIf(m);
  }

  /** The max timer passes in silence: there was a report within min. */
  lemma MaxPasses(m: Moment)
    requires Spaced(m) && m.e.maxDue == Some(m.now) && m.now - m.e.posted <= 1000 * m.e.min
    ensures Spaced(Moment(m.e.(maxDue := Some(m.now + 1000 * m.e.max)), m.now))
  {
    hide Gaps;
  }

  lemma MaxKeepsSpacing(m: Moment)
    requires Spaced(m) && m.e.maxDue == Some(m.now)
    ensures Spaced(Moment(MaxFired(m.e, m.now), m.now))
  {
    hide Reported;
    if m.now - m.e.posted > 1000 * m.e.min {
      MaxReports(m);
    } else {
      MaxPasses(m);
    }
    hide Spaced;
  }

  lemma HandlerKeepsSpacing(m: Moment, skipped: bool)
    requires Spaced(m)
    ensures Spaced(Next(m, Handler(skipped)))
  {
    hide Reported, Changed, MinChecked;
  }

  lemma StepKeepsSpacing(m: Moment, ev: Event)
    requires Spaced(m) && Enabled(m, ev)
    ensures Spaced(Next(m, ev))
  {
    match ev
    case Wait(_) =>
    case Value(_) =>
    case MinTimer => MinKeepsSpacing(m);
    case MaxTimer => MaxKeepsSpacing(m);
    case Handler(skipped) => HandlerKeepsSpacing(m, skipped);
  }

  /** With 0 < min < max, two consecutive reports are never less than min apart and never more than min + max
      apart, and the silence since the last one is never longer than that either. */
  lemma {:induction false} ReportSpacing(ms: seq<Moment>, evs: seq<Event>)
    requires Run(ms, evs) && Fresh(ms[0]) && 0 < ms[0].e.min < ms[0].e.max < NEVER
    ensures var m := ms[|evs|]; var least, most := 1000 * ms[0].e.min, 1000 * ms[0].e.max;
      m.e.min == ms[0].e.min && m.e.max == ms[0].e.max
      && Gaps(m.e.sent, least, least + most) && (m.e.sent != [] ==> m.now <= Last(m.e) + least + most)
      && Spaced(m)
    decreases |evs|
  {
    hide Next, Enabled;
    if evs != [] {
      var n := |evs| - 1;
      RunPrefix(ms, evs);
      ReportSpacing(ms[..n + 1], evs[..n]);
      assert Step(ms[n], evs[n], ms[n + 1]);
      StepKeepsSpacing(ms[n], evs[n]);
      StepKeepsConfig(ms[n], evs[n]);
    }
  }

  lemma RunPrefix(ms: seq<Moment>, evs: seq<Event>)
    requires Run(ms, evs) && evs != []
    ensures var n := |evs| - 1; Run(ms[..n + 1], evs[..n]) && Step(ms[n], evs[n], ms[n + 1])
  {
    hide Step;
  }

  lemma StepKeepsConfig(m: Moment, ev: Event)
    requires Shaped(m.e) && Enabled(m, ev)
    ensures var n := Next(m, ev); n.e.min == m.e.min && n.e.max == m.e.max && n.e.bound == m.e.bound
    ensures Next(m, ev).now >= m.now
  {
    hide Changed;
  }

  /** The first pass of the main loop starts both timers, each with its own interval. */
  lemma FirstPass(m: Moment, skipped: bool)
    requires Fresh(m) && 0 < m.e.min < m.e.max < NEVER
    ensures var n := Next(m, Handler(skipped));
      n.e.minDue == Some(m.now + 1000 * m.e.min) && n.e.maxDue == Some(m.now + 1000 * m.e.max) && n.e.sent == []
  {
    hide Changed;
  }

  /** The first report of such an entry is not later than its first max timer. */
  lemma FirstReport(m: Moment)
    requires Spaced(m) && m.e.sent == [] && m.e.maxDue == Some(m.now)
    ensures Next(m, MaxTimer).e.sent == [m.now]
  {
    ReportOf(m.e.(minDue := None), m.now);
  }

  /** The min timer reports exactly what has changed, and leaves nothing to report, unless the SDK's comparison finds
      a value to differ from itself. */
  lemma MinTimerReportsChange(m: Moment)
    requires Live(m.e) && m.e.min != m.e.max && m.e.minDue == Some(m.now)
    ensures var n := Next(m, MinTimer);
      n.e.sent == (if Changed(m.e) then m.e.sent + [m.now] else m.e.sent)
      && (Changed(n.e) <==> Changed(m.e) && DiffersFromItself(m.e))
  {
    hide U48;
    ReportOf(m.e, m.now);
    ReportSettles(m.e, m.now);
  }

  /** Only a comparison of the SDK can call for a report of the very value just reported. */
  predicate DiffersFromItself(e: Entry)
    requires Live(e)
  {
    var n := Len(e.data.value);
    match e.kind
    case OtherAnalog(changed) => changed(e.data.value, e.data.value[..n] + e.prev[n..], e.change)
    case _ => false
  }

  // ----- min == max -----

  predicate Periodic(m: Moment)
  {
    var e, now := m.e, m.now;
    Live(e) && 0 < e.min == e.max < NEVER && e.maxDue.None?
    && (e.minDue.None? ==> e.sent == [])
    && (e.minDue.Some? ==> now <= e.minDue.value && (e.sent != [] ==> e.minDue.value == Last(e) + 1000 * e.min))
    && Gaps(e.sent, 1000 * e.min, 1000 * e.min)
  }

  lemma StepKeepsPeriod(m: Moment, ev: Event)
    requires Periodic(m) && Enabled(m, ev)
    ensures Periodic(Next(m, ev))
  {
    hide Reported, Changed;
    ReportOf(m.e, m.now);
    if ev.MinTimer? {
      OneMoreGap(m.e.sent, m.now, 1000 * m.e.min, 1000 * m.e.min);
    }
  }

  /** With min == max reports come exactly that far apart, whatever the value does. */
  lemma {:induction false} EqualIntervals(ms: seq<Moment>, evs: seq<Event>)
    requires Run(ms, evs) && Fresh(ms[0]) && 0 < ms[0].e.min == ms[0].e.max < NEVER
    ensures Periodic(ms[|evs|]) && ms[|evs|].e.min == ms[0].e.min
    decreases |evs|
  {
    hide Next, Enabled;
    if evs != [] {
      var n := |evs| - 1;
      RunPrefix(ms, evs);
      EqualIntervals(ms[..n + 1], evs[..n]);
      StepKeepsPeriod(ms[n], evs[n]);
      StepKeepsConfig(ms[n], evs[n]);
    }
  }

  // ----- min == 0 -----

  predicate Prompt(m: Moment)
  {
    var e, now := m.e, m.now;
    Live(e) && e.min == 0 < e.max < NEVER && e.minDue.None? && e.posted <= now
    && (e.maxDue.None? ==> e.sent == [])
    && (e.maxDue.Some? ==> now <= e.maxDue.value && (e.sent == [] ==> e.posted < e.maxDue.value))
    && (e.sent != [] ==> e.posted <= Last(e) <= now && e.maxDue.value == Last(e) + 1000 * e.max)
    && Gaps(e.sent, 0, 1000 * e.max)
  }

  lemma StepKeepsPrompt(m: Moment, ev: Event)
    requires Prompt(m) && Enabled(m, ev)
    ensures Prompt(Next(m, ev))
  {
    hide Reported, Changed, Gaps;
    ReportOf(m.e, m.now);
    ReportOf(m.e.(minDue := None), m.now);
    OneMorePrompt(m);
  }

  lemma OneMorePrompt(m: Moment)
    requires Prompt(m)
    ensures Gaps(m.e.sent + [m.now], 0, 1000 * m.e.max)
  {
    OneMoreGap(m.e.sent, m.now, 0, 1000 * m.e.max);
  }

  /** Without a minimum, reports are never more than max apart, and the max timer always runs from the last one. */
  lemma {:induction false} NoMinimumSpacing(ms: seq<Moment>, evs: seq<Event>)
    requires Run(ms, evs) && Fresh(ms[0]) && ms[0].e.min == 0 < ms[0].e.max < NEVER
    ensures Prompt(ms[|evs|]) && ms[|evs|].e.max == ms[0].e.max
    decreases |evs|
  {
    hide Next, Enabled;
    if evs != [] {
      var n := |evs| - 1;
      RunPrefix(ms, evs);
      NoMinimumSpacing(ms[..n + 1], evs[..n]);
      StepKeepsPrompt(ms[n], evs[n]);
      StepKeepsConfig(ms[n], evs[n]);
    }
  }

  /** A pass of the main loop reports what has changed and leaves no reportable change behind, with the same
      exception. */
  lemma HandlerSettles(m: Moment)
    requires Live(m.e) && (m.e.max == 0 || (m.e.min == 0 && m.e.max != 0xFFFF))
    ensures Changed(Next(m, Handler(false)).e) ==> DiffersFromItself(m.e)
    ensures !DiffersFromItself(m.e) ==>
              Next(m, Handler(false)).e.sent == (if Changed(m.e) then m.e.sent + [m.now] else m.e.sent)
    ensures Changed(m.e) ==> m.e.sent + [m.now] <= Next(m, Handler(false)).e.sent
  {
    hide U48;
    ReportSettles(m.e, m.now);
  }

  /** A timer or pass that looks for a change. */
  predicate Looks(m: Moment, ev: Event)
  {
    (ev.MinTimer? && m.e.min != m.e.max && m.e.minDue == Some(m.now))
    || (ev == Handler(false) && (m.e.max == 0 || (m.e.min == 0 && m.e.max != 0xFFFF)))
    || (ev == Handler(true) && m.e.min != 0 == m.e.max && m.e.maxDue.None?)
  }

  /** A litre counter that was last reported as p and stands at c is reported exactly if it has moved by more than the
      threshold, and then c is what was last reported. */
  lemma CounterReported(m: Moment, ev: Event, c: nat, p: nat, d: nat)
    requires Live(m.e) && Looks(m, ev) && m.e.kind.Uint48?
    requires Holds(m.e.data.value, c) && Holds(m.e.prev, p) && Holds(m.e.change, d)
    ensures Enabled(m, ev)
    ensures var n := Next(m, ev).e;
      n.sent == (if c > p + d || p > c + d then m.e.sent + [m.now] else m.e.sent)
      && Holds(n.prev, if c > p + d || p > c + d then c else p)
  {
    hide U48, Holds;
    NumbersDecide(m.e.data.value, m.e.prev, m.e.change);
    PrevHolds(m.e, m.now, c);
    LooksReports(m, ev);
  }

  lemma PrevHolds(e: Entry, now: nat, c: nat)
    requires Live(e) && e.kind.Uint48? && Holds(e.data.value, c)
    ensures Holds(Reported(e, now).prev, c)
  {
    hide U48Bytes;
    assert Reported(e, now).prev[..6] == e.data.value[..6];
  }

  /** A value of another kind, of at most eight bytes, is reported exactly if it is not the one last reported. */
  lemma ValueReported(m: Moment, ev: Event, last: seq<byte>)
    requires Live(m.e) && Looks(m, ev) && m.e.kind.Discrete?
    requires |m.e.data.value| == |last| <= 8 && m.e.prev[..|last|] == last
    ensures Enabled(m, ev)
    ensures var n := Next(m, ev).e;
      n.sent == (if m.e.data.value != last then m.e.sent + [m.now] else m.e.sent)
      && n.prev[..|last|] == m.e.data.value
  {
    var e := m.e;
    assert e.data.value[..|last|] == e.data.value;
    assert Reported(e, m.now).prev[..|last|] == e.data.value;
    LooksReports(m, ev);
  }

  lemma LooksReports(m: Moment, ev: Event)
    requires Live(m.e) && Looks(m, ev) && !m.e.kind.OtherAnalog?
    ensures Enabled(m, ev)
    ensures var n := Next(m, ev).e;
      n.sent == (if Changed(m.e) then m.e.sent + [m.now] else m.e.sent)
      && n.prev == (if Changed(m.e) then Reported(m.e, m.now).prev else m.e.prev)
  {
    hide U48;
    ReportSettles(m.e, m.now);
  }

  lemma ReportSettles(e: Entry, now: nat)
    requires Live(e)
    ensures var r := Reported(e, now); Live(r) && r.kind == e.kind && (Changed(r) <==> DiffersFromItself(e))
    ensures DiffersFromItself(Reported(e, now)) == DiffersFromItself(e)
  {
    var r := Reported(e, now);
    var n := Len(e.data.value);
    assert r.prev[..n] == e.data.value[..n] && r.prev[n..] == e.prev[n..];
    assert r.prev == e.data.value[..n] + e.prev[n..];
    if e.kind.Uint48? {
      SameU48(r.prev, e.data.value);
    }
  }

  lemma SameU48(a: seq<byte>, b: seq<byte>)
    requires |a| >= 6 && |b| == 6 && a[..6] == b[..6]
    ensures U48(a) == U48(b)
  {
    assert forall i :: 0 <= i < 6 ==> a[i] == a[..6][i] && b[i] == b[..6][i];
  }

  // ----- entries that never report -----

  /** Reporting switched off, or a minimum above the maximum. */
  predicate Muted(e: Entry)
  {
    e.max == NEVER || 0 < e.max < e.min
  }

  lemma {:induction false} MutedNeverReports(ms: seq<Moment>, evs: seq<Event>)
    requires Run(ms, evs) && Fresh(ms[0]) && Muted(ms[0].e)
    ensures var e := ms[|evs|].e; e.sent == [] && e.minDue.None? && e.maxDue.None? && Muted(e)
    decreases |evs|
  {
    if evs != [] {
      var n := |evs| - 1;
      RunPrefix(ms, evs);
      MutedNeverReports(ms[..n + 1], evs[..n]);
    }
  }

  /** An entry that is not bound, or has no attribute, sends nothing, whatever timers still run from before. */
  lemma {:induction false} UnboundSendsNothing(ms: seq<Moment>, evs: seq<Event>)
    requires Run(ms, evs) && (!ms[0].e.bound || (ms[0].e.data.None? && forall ev <- evs :: !ev.Value?))
    ensures ms[|evs|].e.sent == ms[0].e.sent && ms[|evs|].e.bound == ms[0].e.bound
    ensures ms[0].e.data.None? && (forall ev <- evs :: !ev.Value?) ==> ms[|evs|].e.data.None?
    decreases |evs|
  {
    hide Next, Enabled;
    if evs != [] {
      var n := |evs| - 1;
      RunPrefix(ms, evs);
      UnboundSendsNothing(ms[..n + 1], evs[..n]);
      StepSendsNothing(ms[n], evs[n]);
    }
  }

  /** The main loop leaves entries alone that are not in use or not bound. */
  lemma UnusedLeftAlone(m: Moment, skipped: bool)
    requires Shaped(m.e) && (!m.e.used || !m.e.bound)
    ensures Next(m, Handler(skipped)) == m
  {
    hide Changed;
  }

  /** With its max timer running, an entry can only have its min timer started by a pass. */
  lemma RunningMaxKept(m: Moment)
    requires Shaped(m.e) && m.e.maxDue.Some?
    ensures var n := Next(m, Handler(true)).e; n == m.e.(minDue := n.minDue) && (m.e.minDue.Some? ==> n == m.e)
  {
    hide Changed;
  }

  /** The min timer of an entry that has lost its attribute stops; every other period begins again. */
  lemma MinTimerRepeats(m: Moment)
    requires Shaped(m.e) && m.e.minDue == Some(m.now)
    ensures Next(m, MinTimer).e.minDue == if m.e.data.None? then None else Some(m.now + 1000 * m.e.min)
  {
    hide Changed;
  }

  lemma StepSendsNothing(m: Moment, ev: Event)
    requires Shaped(m.e) && Enabled(m, ev) && (!m.e.bound || (m.e.data.None? && !ev.Value?))
    ensures var n := Next(m, ev).e;
      n.sent == m.e.sent && n.bound == m.e.bound && (m.e.data.None? && !ev.Value? ==> n.data.None?)
  {
    hide Changed;
  }

  // ----- the table -----

  /** A pass over the table is one handler event for each of its entries. */
  lemma TableHandler(es: seq<Entry>, now: nat, i: nat)
    requires AllShaped(es) && i < |es|
    ensures Step(Moment(es[i], now), Handler(i >= Reach(es)), Moment(StartPass(AfterNoMin(es, now), now)[i], now))
  {
    hide NoMinChecked, TimersStarted, Reach, Enabled, MinFired, MaxFired;
    var skipped := i >= Reach(es);
    HandlerEnabled(Moment(es[i], now), skipped);
    assert AfterNoMin(es, now)[i] == if skipped then es[i] else NoMinChecked(es[i], now);
    hide AfterNoMin;
  }

  lemma HandlerEnabled(m: Moment, skipped: bool)
    ensures Enabled(m, Handler(skipped))
  {
  }
}
