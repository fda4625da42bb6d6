/** The report scheduler: min and max timers per table entry, on an ideal clock in milliseconds. */
module Reporting {
  import opened Bytes

  /** How an attribute is compared with the last reported value. */
  datatype Kind =
    | Discrete
    | Uint48
    | OtherAnalog(changed: (seq<byte>, seq<byte>, seq<byte>) -> bool)  // the SDK's own comparison

  const NEVER: nat := 0xFFFF

  /** A row of the reporting table with its timers; sent lists the times of the reports it produced. */
  datatype Entry = Entry(
    used: bool, min: u16, max: u16, kind: Kind, data: Option<seq<byte>>, prev: seq<byte>, change: seq<byte>,
    bound: bool, minDue: Option<nat>, maxDue: Option<nat>, posted: nat, sent: seq<nat>)

  predicate Shaped(e: Entry)
  {
    |e.prev| == 8 && |e.change| == 8 && (e.data.Some? && e.kind.Uint48? ==> |e.data.value| == 6)
  }

  // ----- comparison -----

  function U48(b: seq<byte>): nat
    requires |b| >= 6
  {
    ByteValue(b[0]) + 0x100 * ByteValue(b[1]) + 0x10000 * ByteValue(b[2]) + 0x1000000 * ByteValue(b[3])
    + 0x1_0000_0000 * ByteValue(b[4]) + 0x100_0000_0000 * ByteValue(b[5])
  }

  /** A 48-bit number as the attribute holds it, low byte first. */
  function U48Bytes(n: nat): (r: seq<byte>)
    requires n < 0x1_0000_0000_0000
    ensures |r| == 6
  {
    U32Bytes(n % 0x1_0000_0000) + [Low(n / 0x1_0000_0000), High(n / 0x1_0000_0000)]
  }

  /** The first six bytes are the digits of n. */
  predicate Holds(b: seq<byte>, n: nat)
  {
    |b| >= 6 && n < 0x1_0000_0000_0000 && b[..6] == U48Bytes(n)
  }

  lemma U48RoundTrip(n: nat)
    requires n < 0x1_0000_0000_0000
    ensures U48(U48Bytes(n)) == n
  {
    hide U32Bytes, High, Low;
    var low, high := n % 0x1_0000_0000, n / 0x1_0000_0000;
    U32RoundTrip(low);
    U16RoundTrip(high);
    U48Halves(U32Bytes(low), Low(high), High(high));
  }

  lemma U48Halves(low: seq<byte>, lo: byte, hi: byte)
    requires |low| == 4
    ensures U48(low + [lo, hi]) == U32Of(low) + 0x1_0000_0000 * U16Of(hi, lo)
  {
    hide ByteValue;
  }

  /** Six bytes have a number of their own. */
  lemma U48Injective(a: seq<byte>, b: seq<byte>)
    requires |a| >= 6 && |b| >= 6
    ensures U48(a) == U48(b) <==> a[..6] == b[..6]
  {
    if a[..6] == b[..6] {
      assert forall i :: 0 <= i < 6 ==> a[i] == a[..6][i] && b[i] == b[..6][i];
    } else if U48(a) == U48(b) {
      SixBytes(a, b);
      assert false;
    }
  }

  lemma SixBytes(a: seq<byte>, b: seq<byte>)
    requires |a| >= 6 && |b| >= 6 && U48(a) == U48(b)
    ensures a[..6] == b[..6]
  {
    hide ByteValue, U16Of;
    Pairs(a);
    Pairs(b);
    hide U48;
    PairsDecide(U16Of(a[1], a[0]), U16Of(a[3], a[2]), U16Of(a[5], a[4]),
                U16Of(b[1], b[0]), U16Of(b[3], b[2]), U16Of(b[5], b[4]));
    U16Unique(a[1], a[0]);
    U16Unique(b[1], b[0]);
    U16Unique(a[3], a[2]);
    U16Unique(b[3], b[2]);
    U16Unique(a[5], a[4]);
    U16Unique(b[5], b[4]);
    hide High, Low;
  }

  lemma Pairs(b: seq<byte>)
    requires |b| >= 6
    ensures U48(b) == U16Of(b[1], b[0]) + 0x10000 * U16Of(b[3], b[2]) + 0x1_0000_0000 * U16Of(b[5], b[4])
  {
    hide ByteValue;
  }

  lemma PairsDecide(a0: u16, a1: u16, a2: u16, b0: u16, b1: u16, b2: u16)
    requires a0 + 0x10000 * a1 + 0x1_0000_0000 * a2 == b0 + 0x10000 * b1 + 0x1_0000_0000 * b2
    ensures a0 == b0 && a1 == b1 && a2 == b2
  {
  }

  lemma ZeroU48(b: seq<byte>)
    requires |b| >= 6 && b[..6] == [0, 0, 0, 0, 0, 0]
    ensures U48(b) == 0
  {
    assert forall i :: 0 <= i < 6 ==> b[i] == b[..6][i];
    assert ByteValue(0) == 0;
  }

  function Distance(a: nat, b: nat): nat { if a >= b then a - b else b - a }

  /** app_reportableChangeValueChk for 48-bit counters. */
  method ReportableChangeValueChk(cur: seq<byte>, prev: seq<byte>, change: seq<byte>) returns (needReport: bool)
    requires |cur| >= 6 && |prev| >= 6 && |change| >= 6
    ensures needReport <==> Distance(U48(cur), U48(prev)) > U48(change)
    ensures forall c: nat, p: nat, d: nat :: Holds(cur, c) && Holds(prev, p) && Holds(change, d) ==>
              (needReport <==> c > p + d || p > c + d)
    ensures change[..6] == [0, 0, 0, 0, 0, 0] ==> (needReport <==> cur[..6] != prev[..6])
  {
    hide U48, U48Bytes;
    var p, c, r := U48(prev), U48(cur), U48(change);
    if p >= c {
      needReport := p - c > r;
    } else {
      needReport := c - p > r;
    }
    NumbersDecide(cur, prev, change);
    BytesDecide(cur, prev, change);
  }

  /** In numbers: the value has moved by more than the threshold, either way. */
  lemma NumbersDecide(cur: seq<byte>, prev: seq<byte>, change: seq<byte>)
    requires |cur| >= 6 && |prev| >= 6 && |change| >= 6
    ensures forall c: nat, p: nat, d: nat :: Holds(cur, c) && Holds(prev, p) && Holds(change, d) ==>
              (Distance(U48(cur), U48(prev)) > U48(change) <==> c > p + d || p > c + d)
  {
    hide U48, U48Bytes;
    forall c: nat, p: nat, d: nat | Holds(cur, c) && Holds(prev, p) && Holds(change, d)
      ensures U48(cur) == c && U48(prev) == p && U48(change) == d
    {
      U48OfNumber(cur, c);
      U48OfNumber(prev, p);
      U48OfNumber(change, d);
    }
  }

  lemma U48OfNumber(b: seq<byte>, n: nat)
    requires Holds(b, n)
    ensures U48(b) == n
  {
    hide U48, U48Bytes;
    U48RoundTrip(n);
    U48Injective(b, U48Bytes(n));
    assert U48Bytes(n)[..6] == U48Bytes(n);
  }

  /** In bytes: with a threshold of zero any change counts. */
  lemma BytesDecide(cur: seq<byte>, prev: seq<byte>, change: seq<byte>)
    requires |cur| >= 6 && |prev| >= 6 && |change| >= 6
    ensures change[..6] == [0, 0, 0, 0, 0, 0] ==>
              (Distance(U48(cur), U48(prev)) > U48(change) <==> cur[..6] != prev[..6])
  {
    hide U48;
    U48Injective(cur, prev);
    if change[..6] == [0, 0, 0, 0, 0, 0] {
      ZeroU48(change);
    }
  }

  function Len(data: seq<byte>): nat { if |data| > 8 then 8 else |data| }

  /** Whether the value moved enough since the last report. */
  predicate Changed(e: Entry)
    requires Shaped(e) && e.data.Some?
  {
    match e.kind
    case Discrete => e.prev[..Len(e.data.value)] != e.data.value[..Len(e.data.value)]
    case Uint48 => Distance(U48(e.data.value), U48(e.prev)) > U48(e.change)
    case OtherAnalog(changed) => changed(e.data.value, e.prev, e.change)
  }

  // ----- what one entry does -----

  /** reportAttr: an unbound entry sends nothing. */
  function Reported(e: Entry, now: nat): Entry
    requires Shaped(e)
  {
    if e.bound && e.data.Some? then
      var n := Len(e.data.value);
      e.(prev := e.data.value[..n] + e.prev[n..], sent := e.sent + [now])
    else e
  }

  /** app_reportMinAttrTimerCb, apart from its return value. */
  function MinChecked(e: Entry, now: nat): Entry
    requires Shaped(e)
  {
    if e.data.None? then e.(minDue := None)
    else if e.min == e.max || Changed(e) then Reported(e, now).(posted := now)
    else e
  }

  /** The min timer runs out; returning 0 starts the same period again. */
  function MinFired(e: Entry, now: nat): Entry
    requires Shaped(e)
  {
    if e.data.None? then e.(minDue := None)
    else MinChecked(e, now).(minDue := Some(now + 1000 * e.min))
  }

  function MaxFired(e: Entry, now: nat): Entry
    requires Shaped(e)
  {
    var r := if now - e.posted > 1000 * e.min then Reported(e.(minDue := None), now) else e;
    r.(maxDue := Some(now + 1000 * e.max))
  }

  /** app_reportNoMinLimit for one entry. */
  predicate NoMinLimit(e: Entry)
  {
    e.used && (e.max == 0 || (e.max != NEVER && e.min == 0))
  }

  function NoMinChecked(e: Entry, now: nat): Entry
    requires Shaped(e)
  {
    if NoMinLimit(e) && e.data.Some? && Changed(e) && e.bound then
      var r := Reported(e, now).(posted := now);
      if e.max != 0 then r.(maxDue := Some(now + 1000 * e.max)) else r
    else e
  }

  /** app_reportAttrTimerStart for one entry. */
  function TimersStarted(e: Entry, now: nat): Entry
    requires Shaped(e)
  {
    if e.used && e.max != NEVER && (e.min != 0 || e.max != 0) && e.bound then
      var f := if e.minDue.None? && e.min != 0 && e.max != 0 && e.min <= e.max
               then e.(minDue := Some(now + 1000 * e.min)) else e;
      if f.maxDue.Some? then f
      else if f.max == 0 then MinChecked(f, now)
      else if f.min < f.max then f.(maxDue := Some(now + 1000 * f.max))
      else f
    else e
  }

  lemma ReportedShaped(e: Entry, now: nat)
    requires Shaped(e)
    ensures Shaped(Reported(e, now)) && Reported(e, now).data == e.data && Reported(e, now).kind == e.kind
  {
  }

  lemma MinShaped(e: Entry, now: nat)
    requires Shaped(e)
    ensures Shaped(MinChecked(e, now)) && Shaped(MinFired(e, now))
  {
    hide Reported, Changed;
    ReportedShaped(e, now);
  }

  lemma MaxShaped(e: Entry, now: nat)
    requires Shaped(e)
    ensures Shaped(MaxFired(e, now))
  {
    hide Reported;
    ReportedShaped(e.(minDue := None), now);
  }

  lemma NoMinShaped(e: Entry, now: nat)
    requires Shaped(e)
    ensures Shaped(NoMinChecked(e, now))
  {
    hide Reported, Changed;
    ReportedShaped(e, now);
  }

  lemma NoMinSkips(e: Entry, now: nat)
    requires Shaped(e) && e.data.None?
    ensures NoMinChecked(e, now) == e
  {
  }

  lemma StartShaped(e: Entry, now: nat)
    requires Shaped(e)
    ensures Shaped(TimersStarted(e, now))
  {
    hide MinChecked;
    MinShaped(e, now);
    MinShaped(e.(minDue := Some(now + 1000 * e.min)), now);
  }

  // ----- the table -----

  predicate AllShaped(es: seq<Entry>)
  {
    forall i :: 0 <= i < |es| ==> Shaped(es[i])
  }

  /** Entries that app_reportNoMinLimit reaches: it gives up at the first one without an attribute. */
  function Reach(es: seq<Entry>): (r: nat)
    ensures r <= |es|
    ensures forall i :: 0 <= i < r ==> !(NoMinLimit(es[i]) && es[i].data.None?)
    ensures r < |es| ==> NoMinLimit(es[r]) && es[r].data.None?
  {
    if es == [] then 0
    else if NoMinLimit(es[0]) && es[0].data.None? then 0
    else 1 + Reach(es[1..])
  }

  function NoMinPass(es: seq<Entry>, now: nat): (r: seq<Entry>)
    requires AllShaped(es)
    ensures |r| == |es|
  {
    seq(|es|, i requires 0 <= i < |es| => if i < Reach(es) then NoMinChecked(es[i], now) else es[i])
  }

  function StartPass(es: seq<Entry>, now: nat): (r: seq<Entry>)
    requires AllShaped(es)
    ensures |r| == |es|
  {
    seq(|es|, i requires 0 <= i < |es| => TimersStarted(es[i], now))
  }

  class Reporter {
    var entries: seq<Entry>
    var now: nat
    var joined: bool
    var stopped: bool  // timerStopReportEvt is running

    constructor (entries: seq<Entry>, now: nat)
      ensures this.entries == entries && this.now == now
    {
      this.entries, this.now := entries, now;
      joined, stopped := false, false;
    }

    /** app_reportMinAttrTimerCb, as run by the timer of entry i. */
    method MinAttrTimerCb(i: nat)
      requires i < |entries| && AllShaped(entries)
      modifies this`entries
      ensures entries == old(entries)[i := MinFired(old(entries)[i], now)] && AllShaped(entries)
    {
      MinShaped(entries[i], now);
      var again := MinCallback(i);
      if again {
        entries := entries[i := entries[i].(minDue := Some(now + 1000 * entries[i].min))];
      }
    }

    method MinCallback(i: nat) returns (again: bool)
      requires i < |entries| && AllShaped(entries)
      modifies this`entries
      ensures entries == old(entries)[i := MinChecked(old(entries)[i], now)]
      ensures again == old(entries)[i].data.Some?
    {
      var e := entries[i];
      if e.data.None? {
        entries := entries[i := e.(minDue := None)];
        return false;
      }
      if e.min == e.max {
        e := Reported(e, now);
        e := e.(posted := now);
        entries := entries[i := e];
        return true;
      }
      var moved := ValueMoved(e);
      if moved {
        e := Reported(e, now);
        e := e.(posted := now);
      }
      entries := entries[i := e];
      again := true;
    }

    method ValueMoved(e: Entry) returns (moved: bool)
      requires Shaped(e) && e.data.Some?
      ensures moved == Changed(e)
    {
      var data := e.data.value;
      match e.kind
      case Discrete => moved := e.prev[..Len(data)] != data[..Len(data)];
      case Uint48 => moved := ReportableChangeValueChk(data, e.prev, e.change);
      case OtherAnalog(changed) => moved := changed(data, e.prev, e.change);
    }

    /** app_reportMaxAttrTimerCb, as run by the timer of entry i. */
    method MaxAttrTimerCb(i: nat)
      requires i < |entries| && AllShaped(entries)
      modifies this`entries
      ensures entries == old(entries)[i := MaxFired(old(entries)[i], now)] && AllShaped(entries)
    {
      MaxShaped(entries[i], now);
      var e := entries[i];
      if now - e.posted > 1000 * e.min {
        e := e.(minDue := None);
        e := Reported(e, now);
      }
      entries := entries[i := e.(maxDue := Some(now + 1000 * e.max))];
    }

    /** One turn of the loop of app_reportNoMinLimit; false when the loop is left. */
    method NoMinEntry(i: nat) returns (found: bool)
      requires i < |entries| && AllShaped(entries)
      modifies this`entries
      ensures entries == old(entries)[i := NoMinChecked(old(entries)[i], now)]
      ensures found <==> !(NoMinLimit(old(entries)[i]) && old(entries)[i].data.None?)
    {
      var e := entries[i];
      found := true;
      if e.used && (e.max == 0 || (e.max != NEVER && e.min == 0)) {
        if e.data.None? {
          return false;
        }
        var moved := ValueMoved(e);
        if moved && e.bound {
          e := Reported(e, now);
          e := e.(posted := now);
          if e.max != 0 {
            e := e.(maxDue := Some(now + 1000 * e.max));
          }
        }
      }
      entries := entries[i := e];
    }

    /** app_reportNoMinLimit */
    method ReportNoMinLimit()
      requires AllShaped(entries)
      modifies this`entries
      ensures entries == NoMinPass(old(entries), now) && AllShaped(entries)
    {
      hide NoMinChecked, Shaped, NoMinLimit;
      ghost var es := entries;
      var i := 0;
      while i < |entries|
        invariant 0 <= i <= Reach(es) && |entries| == |es|
        invariant forall k :: 0 <= k < i ==> entries[k] == NoMinChecked(es[k], now) && Shaped(entries[k])
        invariant forall k :: i <= k < |es| ==> entries[k] == es[k]
      {
        NoMinShaped(es[i], now);
        var found := NoMinEntry(i);
        if !found {
          NoMinSkips(es[i], now);
          return;
        }
        i := i + 1;
      }
    }

    /** One turn of the loop of app_reportAttrTimerStart. */
    method StartEntry(i: nat)
      requires i < |entries| && AllShaped(entries)
      modifies this`entries
      ensures entries == old(entries)[i := TimersStarted(old(entries)[i], now)]
    {
      hide MinChecked;
      var e := entries[i];
      if e.used && e.max != NEVER && (e.min != 0 || e.max != 0) && e.bound {
        if e.minDue.None? && e.min != 0 && e.max != 0 && e.min <= e.max {
          e := e.(minDue := Some(now + 1000 * e.min));
          entries := entries[i := e];
        }
        if e.maxDue.None? {
          if e.max != 0 {
            if e.min < e.max {
              entries := entries[i := e.(maxDue := Some(now + 1000 * e.max))];
            }
          } else {
            var again := MinCallback(i);
          }
        }
      }
    }

    /** app_reportAttrTimerStart */
    method ReportAttrTimerStart()
      requires AllShaped(entries)
      modifies this`entries
      ensures entries == StartPass(old(entries), now) && AllShaped(entries)
    {
      hide TimersStarted, Shaped;
      ghost var es := entries;
      var i := 0;
      while i < |entries|
        invariant 0 <= i <= |entries| == |es|
        invariant forall k :: 0 <= k < i ==> entries[k] == TimersStarted(es[k], now) && Shaped(entries[k])
        invariant forall k :: i <= k < |es| ==> entries[k] == es[k]
      {
        StartShaped(es[i], now);
        StartEntry(i);
        i := i + 1;
      }
    }

    /** app_report_handler */
    method ReportHandler()
      requires AllShaped(entries)
      modifies this`entries
      ensures AllShaped(entries)
      ensures entries == if !joined || stopped then old(entries) else StartPass(AfterNoMin(old(entries), now), now)
    {
      if joined {
        if stopped {
          return;
        }
        ReportNoMinLimit();
        ReportAttrTimerStart();
      }
    }
  }

  function AfterNoMin(es: seq<Entry>, now: nat): (r: seq<Entry>)
    requires AllShaped(es)
    ensures AllShaped(r)
  {
    var r := NoMinPass(es, now);
    assert AllShaped(r) by {
      forall i | 0 <= i < |r|
        ensures Shaped(r[i])
      {
        NoMinShaped(es[i], now);
      }
    }
    r
  }
}
