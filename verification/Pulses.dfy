/** What the debounce walk counts. */
module Pulses {
  import opened Bytes
  import opened Counter

  // ----- the debounce walk over a history of polls; true is a low (pressed) pin -----

  function Walk(d: nat, s: seq<bool>): (r: nat)
    requires 1 <= d <= 32
    ensures 1 <= r <= 32
    decreases |s|
  {
    if s == [] then d
    else Polled(Input(0, Walk(d, s[..|s| - 1])), s[|s| - 1]).debounce
  }

  /** Pulses counted along a history. */
  function Counts(d: nat, s: seq<bool>): nat
    requires 1 <= d <= 32
    decreases |s|
  {
    if s == [] then 0
    else Counts(d, s[..|s| - 1]) + Polled(Input(0, Walk(d, s[..|s| - 1])), s[|s| - 1]).counter
  }

  function Lows(s: seq<bool>): nat
  {
    if s == [] then 0 else Lows(s[..|s| - 1]) + if s[|s| - 1] then 1 else 0
  }

  function Excess(s: seq<bool>): int { 2 * Lows(s) - |s| }

  lemma LastSample(s: seq<bool>, i: nat)
    requires i < |s|
    ensures Excess(s[i..]) == Excess(s[..|s| - 1][i..]) + if s[|s| - 1] then 1 else -1
  {
    assert s[i..][..|s| - 1 - i] == s[..|s| - 1][i..];
  }

  /** Some window that ends now has at least k more low than high polls. */
  ghost predicate Window(s: seq<bool>, k: int)
  {
    exists i :: 0 <= i <= |s| && Excess(s[i..]) >= k
  }

  /** The polls since the walk stood at d, or some window that ends now, carry it to 32. */
  ghost predicate Reached(d: nat, s: seq<bool>)
  {
    Excess(s) >= 32 - d || Window(s, 31)
  }

  /** The walk never stands higher than the polls since it stood at d, or the best window that ends now, allow. */
  lemma {:induction false} WalkNeedsWindow(d: nat, s: seq<bool>)
    requires 1 <= d <= 32
    ensures Excess(s) >= Walk(d, s) - d || Window(s, Walk(d, s) - 1)
    decreases |s|
  {
    if s != [] {
      var init := s[..|s| - 1];
      WalkNeedsWindow(d, init);
      LastSample(s, 0);
      assert s[0..] == s && init[0..] == init;
      assert Excess(s[|s|..]) == 0;
      if i :| 0 <= i <= |init| && Excess(init[i..]) >= Walk(d, init) - 1 {
        LastSample(s, i);
      }
    }
  }

  /** As long as nothing has been counted it stands at least as high as both. */
  lemma {:induction false} WalkFollowsWindow(d: nat, s: seq<bool>, i: nat)
    requires 1 <= d < 32 && i <= |s| && Counts(d, s) == 0
    ensures Walk(d, s) < 32 && Excess(s) <= Walk(d, s) - d && Excess(s[i..]) <= Walk(d, s) - 1
    decreases |s|
  {
    if s == [] {
      assert s[i..] == [];
    } else {
      var init := s[..|s| - 1];
      WalkFollowsWindow(d, init, if i < |s| then i else 0);
      LastSample(s, 0);
      assert s[0..] == s && init[0..] == init;
      if i < |s| {
        LastSample(s, i);
      } else {
        assert s[i..] == [];
      }
    }
  }

  /** Counting happens only at a low poll that gets the walk to 32. */
  lemma CountNeedsWindow(d: nat, s: seq<bool>)
    requires 1 <= d < 32 && s != [] && Counts(d, s) > Counts(d, s[..|s| - 1])
    ensures s[|s| - 1] && Reached(d, s)
  {
    WalkNeedsWindow(d, s);
  }

  ghost predicate Carried(d: nat, s: seq<bool>)
  {
    exists n :: 0 <= n <= |s| && Reached(d, s[..n])
  }

  /** The first count from height d comes exactly when the walk is first carried to 32. */
  lemma {:induction false} FirstCountFrom(d: nat, s: seq<bool>)
    requires 1 <= d < 32
    ensures Counts(d, s) > 0 <==> Carried(d, s)
    decreases |s|
  {
    if s == [] {
      assert s[..0] == s;
      assert forall i :: 0 <= i <= |s| ==> s[i..] == [];
    } else {
      var init := s[..|s| - 1];
      FirstCountFrom(d, init);
      assert s[..|s|] == s;
      if Counts(d, init) > 0 {
        var n :| 0 <= n <= |init| && Reached(d, init[..n]);
        assert init[..n] == s[..n];
      } else if Counts(d, s) > 0 {
        CountNeedsWindow(d, s);
        assert Reached(d, s[..|s|]);
      } else {
        forall n | 0 <= n <= |s|
          ensures !Reached(d, s[..n])
        {
          if n < |s| {
            assert init[..n] == s[..n];
          } else {
            NotReachedYet(d, s);
          }
        }
      }
    }
  }

  lemma NotReachedYet(d: nat, s: seq<bool>)
    requires 1 <= d < 32 && Counts(d, s) == 0
    ensures !Reached(d, s)
  {
    WalkFollowsWindow(d, s, 0);
    forall i | 0 <= i <= |s|
      ensures Excess(s[i..]) < 31
    {
      WalkFollowsWindow(d, s, i);
    }
  }

  /** From a released pin the first pulse is counted exactly when a window with at least 31 more low than high polls
      first appears. */
  lemma FirstCountIff(s: seq<bool>)
    ensures Counts(1, s) > 0 <==> exists n :: 0 <= n <= |s| && Window(s[..n], 31)
  {
    FirstCountFrom(1, s);
    forall n | 0 <= n <= |s|
      ensures Reached(1, s[..n]) <==> Window(s[..n], 31)
    {
      assert s[..n][0..] == s[..n];
    }
  }

  lemma {:induction false} WalkOn(d: nat, s: seq<bool>, t: seq<bool>)
    requires 1 <= d <= 32
    ensures Walk(d, s + t) == Walk(Walk(d, s), t)
    ensures Counts(d, s + t) == Counts(d, s) + Counts(Walk(d, s), t)
    decreases |t|
  {
    if t == [] {
      assert s + t == s;
    } else {
      assert (s + t)[..|s + t| - 1] == s + t[..|t| - 1];
      WalkOn(d, s, t[..|t| - 1]);
    }
  }

  /** A held pulse is counted again exactly when, after the first high poll, the low ones outnumber the high ones by
      one, counted from there, or by 31 in some window. */
  lemma RecountIff(s: seq<bool>, p: nat)
    requires p <= |s| && s[..p] == Repeat(true, p) && (p < |s| ==> !s[p])
    ensures Counts(32, s) > 0 <==>
              p < |s| && Carried(31, s[p + 1..])
  {
    Press(32, p);
    if p == |s| {
      assert s == s[..p];
    } else {
      assert s == (s[..p] + [false]) + s[p + 1..];
      WalkOn(32, s[..p], [false]);
      WalkOn(32, s[..p] + [false], s[p + 1..]);
      assert [false][..0] == [];
      FirstCountFrom(31, s[p + 1..]);
    }
  }

  /** After a count each further one uses up a high poll and a low poll of its own. */
  lemma {:induction false} LaterCounts(s: seq<bool>)
    ensures Counts(32, s) <= |s| - Lows(s)
    ensures Counts(32, s) + (32 - Walk(32, s)) <= |s| - Lows(s)
    ensures Counts(32, s) <= Lows(s)
    decreases |s|
  {
    if s != [] {
      LaterCounts(s[..|s| - 1]);
    }
  }

  /** One of each is enough: a single high poll after a count lets the next low one count again. */
  lemma OneHighRecounts(s: seq<bool>)
    requires Walk(1, s) == 32
    ensures Counts(1, s + [false, true]) == Counts(1, s) + 1 && Walk(1, s + [false, true]) == 32
  {
    var a := s + [false];
    assert a[..|s|] == s;
    assert (s + [false, true])[..|s| + 1] == a;
  }

  function Repeat(low: bool, n: nat): (r: seq<bool>)
    ensures |r| == n
  {
    if n == 0 then [] else Repeat(low, n - 1) + [low]
  }

  lemma {:induction false} PressWalks(d: nat, n: nat)
    requires 1 <= d <= 32
    ensures Walk(d, Repeat(true, n)) == if d + n >= 32 then 32 else d + n
    decreases n
  {
    hide Counts;
    if n > 0 {
      PressWalks(d, n - 1);
      assert Repeat(true, n)[..n - 1] == Repeat(true, n - 1);
    }
  }

  lemma {:induction false} Press(d: nat, n: nat)
    requires 1 <= d <= 32
    ensures Walk(d, Repeat(true, n)) == if d + n >= 32 then 32 else d + n
    ensures Counts(d, Repeat(true, n)) == if d < 32 <= d + n then 1 else 0
    decreases n
  {
    hide Walk;
    PressWalks(d, n);
    if n > 0 {
      Press(d, n - 1);
      assert Repeat(true, n)[..n - 1] == Repeat(true, n - 1);
    }
  }

  lemma {:induction false} ReleaseAfter(s: seq<bool>, n: nat)
    ensures Walk(1, s + Repeat(false, n)) == if Walk(1, s) <= n then 1 else Walk(1, s) - n
    ensures Counts(1, s + Repeat(false, n)) == Counts(1, s)
    decreases n
  {
    if n == 0 {
      assert s + [] == s;
    } else {
      ReleaseAfter(s, n - 1);
      assert (s + Repeat(false, n))[..|s| + n - 1] == s + Repeat(false, n - 1);
    }
  }

  /** A clean press of at least 31 polls and a clean release of at least 31 count once and leave the walk at rest. */
  lemma CleanPulse(down: nat, up: nat)
    requires down >= 31 && up >= 31
    ensures Counts(1, Repeat(true, down) + Repeat(false, up)) == 1
    ensures Walk(1, Repeat(true, down) + Repeat(false, up)) == 1
  {
    Press(1, down);
    ReleaseAfter(Repeat(true, down), up);
  }
}
