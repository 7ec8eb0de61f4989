/**
 Messages that are sent while a reply is being read. The client gives up its lock between two packets, so the list
 it sweeps can grow in between.
 */
module Arrivals {
  import opened Words
  import opened Sequences
  import opened Messages
  import opened AckDiff
  import opened SegmentedAcks

  // After each segment the messages that arrive before the next one join the list.
  function SweepArriving(s: seq<Element>, segments: seq<seq<Word64>>, clocks: seq<Clock>, arriving: seq<seq<Element>>)
    : (seq<Element>, seq<Element>)
    requires |clocks| == |segments| == |arriving|
    decreases |segments|
  {
    if segments == [] then (s, [])
    else
      var list := Kept(s, segments[0], clocks[0], true) + arriving[0];
      var rest := SweepArriving(list, segments[1..], clocks[1..], arriving[1..]);
      (rest.0, Missed(s, segments[0], clocks[0]) + rest.1)
  }

  // The walk over a list with `s` in front reads this clock for what follows.
  function Shift(clock: Clock, n: nat): Clock {
    (i: nat) => clock(i + n)
  }

  lemma {:induction false} SweepOfTwo(s: seq<Element>, t: seq<Element>, acks: seq<Word64>, clock: Clock)
    ensures Kept(s + t, acks, clock, true) == Kept(s, acks, clock, true) + Kept(t, acks, Shift(clock, |s|), true)
    ensures Missed(s + t, acks, clock) == Missed(t, acks, Shift(clock, |s|)) + Missed(s, acks, clock)
  {
    if t == [] {
      assert s + t == s;
    } else {
      var n := |t| - 1;
      assert (s + t)[..|s + t| - 1] == s + t[..n];
      SweepOfTwo(s, t[..n], acks, clock);
    }
  }

  // The clocks as the part of the list behind `s` sees them while the segments shorten `s`.
  function Behind(s: seq<Element>, segments: seq<seq<Word64>>, clocks: seq<Clock>): (r: seq<Clock>)
    requires |clocks| == |segments|
    ensures |r| == |clocks|
    decreases |segments|
  {
    if segments == [] then []
    else [Shift(clocks[0], |s|)] + Behind(Kept(s, segments[0], clocks[0], true), segments[1..], clocks[1..])
  }

  // What was pending before the reply is swept as if nothing arrived; the rest is swept behind it.
  lemma {:induction false} ArrivalsFollow(s: seq<Element>, t: seq<Element>, segments: seq<seq<Word64>>,
                                          clocks: seq<Clock>, arriving: seq<seq<Element>>)
    requires |clocks| == |segments| == |arriving|
    ensures var whole := SweepArriving(s + t, segments, clocks, arriving);
      var front := Sweep(s, segments, clocks);
      var back := SweepArriving(t, segments, Behind(s, segments, clocks), arriving);
      whole.0 == front.0 + back.0 && multiset(whole.1) == multiset(front.1) + multiset(back.1)
    decreases |segments|
  {
    if segments != [] {
      var a, clock, shifted := segments[0], clocks[0], Shift(clocks[0], |s|);
      var keptS, keptT := Kept(s, a, clock, true), Kept(t, a, shifted, true);
      SweepOfTwo(s, t, a, clock);
      assert keptS + keptT + arriving[0] == keptS + (keptT + arriving[0]);
      ArrivalsFollow(keptS, keptT + arriving[0], segments[1..], clocks[1..], arriving[1..]);
      assert Behind(s, segments, clocks)[1..] == Behind(keptS, segments[1..], clocks[1..]);
    }
  }

  // A message the segments do not name and no reading finds expired.
  ghost predicate Untouched(m: Element, segments: seq<seq<Word64>>, clocks: seq<Clock>) {
    m.id !in Concat(segments) && forall j, i: nat :: 0 <= j < |clocks| ==> !TimedOut(m, clocks[j](i))
  }

  lemma {:induction false} UntouchedStay(s: seq<Element>, acks: seq<Word64>, clock: Clock)
    requires forall k :: 0 <= k < |s| ==> s[k].id !in acks && !TimedOut(s[k], clock(k))
    ensures Kept(s, acks, clock, true) == s && Missed(s, acks, clock) == []
  {
    if s != [] {
      var p, m := s[..|s| - 1], s[|s| - 1];
      assert forall k :: 0 <= k < |p| ==> p[k] == s[k];
      UntouchedStay(p, acks, clock);
      assert Kept(s, acks, clock, true) == p + [m] && Missed(s, acks, clock) == [] by {
        SweepLast(s, acks, clock);
      }
      assert p + [m] == s;
    }
  }

  // Whatever arrives unnamed and unexpired is still there, in order, when the reply has been read.
  lemma {:induction false} ArrivalsStay(t: seq<Element>, segments: seq<seq<Word64>>, clocks: seq<Clock>,
                                        arriving: seq<seq<Element>>)
    requires |clocks| == |segments| == |arriving|
    requires forall m :: m in t + Concat(arriving) ==> Untouched(m, segments, clocks)
    ensures SweepArriving(t, segments, clocks, arriving) == (t + Concat(arriving), [])
    decreases |segments|
  {
    if segments == [] {
      assert t + Concat(arriving) == t;
    } else {
      var all := t + Concat(arriving);
      assert all == t + arriving[0] + Concat(arriving[1..]);
      forall m | m in all
        ensures Untouched(m, segments[1..], clocks[1..])
        ensures m.id !in segments[0] && forall i: nat :: !TimedOut(m, clocks[0](i))
      {
        UntouchedSoFar(m, segments, clocks);
      }
      assert forall k :: 0 <= k < |t| ==> t[k] == all[k] && all[k] in all;
      UntouchedStay(t, segments[0], clocks[0]);
      ArrivalsStay(t + arriving[0], segments[1..], clocks[1..], arriving[1..]);
      assert Missed(t, segments[0], clocks[0]) + [] == [];
    }
  }

  lemma UntouchedSoFar(m: Element, segments: seq<seq<Word64>>, clocks: seq<Clock>)
    requires |clocks| == |segments| > 0 && Untouched(m, segments, clocks)
    ensures Untouched(m, segments[1..], clocks[1..])
    ensures m.id !in segments[0] && forall i: nat :: !TimedOut(m, clocks[0](i))
  {
    assert Concat(segments) == segments[0] + Concat(segments[1..]);
    forall j, i: nat | 0 <= j < |clocks[1..]|
      ensures !TimedOut(m, clocks[1..][j](i))
    {
      assert clocks[1..][j] == clocks[j + 1];
    }
  }

  lemma {:induction false} UntouchedBehind(m: Element, s: seq<Element>, segments: seq<seq<Word64>>,
                                           clocks: seq<Clock>)
    requires |clocks| == |segments| && Untouched(m, segments, clocks)
    ensures Untouched(m, segments, Behind(s, segments, clocks))
    decreases |segments|
  {
    var behind := Behind(s, segments, clocks);
    if segments != [] {
      UntouchedSoFar(m, segments, clocks);
      UntouchedBehind(m, Kept(s, segments[0], clocks[0], true), segments[1..], clocks[1..]);
      forall j, i: nat | 0 <= j < |behind|
        ensures !TimedOut(m, behind[j](i))
      {
        assert j > 0 ==> behind[j] == behind[1..][j - 1];
      }
    }
  }
}
