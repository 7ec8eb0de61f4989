/**
 An acknowledgement that arrives in several packets. The client sweeps its pending messages once per packet and
 reads the clock anew each time.
 */
module SegmentedAcks {
  import opened Words
  import opened Sequences
  import opened Messages
  import opened AckDiff

  // Processes the segments one after the other: what is left pending, and everything resent on the way.
  function Sweep(s: seq<Element>, segments: seq<seq<Word64>>, clocks: seq<Clock>): (seq<Element>, seq<Element>)
    requires |clocks| == |segments|
    decreases |segments|
  {
    if segments == [] then (s, [])
    else
      var rest := Sweep(Kept(s, segments[0], clocks[0], true), segments[1..], clocks[1..]);
      (rest.0, Missed(s, segments[0], clocks[0]) + rest.1)
  }

  // One reading per packet.
  function Readings(times: seq<int>): (r: seq<Clock>)
    ensures |r| == |times| && forall i :: 0 <= i < |times| ==> r[i] == Fixed(times[i])
  {
    seq(|times|, i requires 0 <= i < |times| => Fixed(times[i]))
  }

  predicate InTimeOrder(times: seq<int>) {
    forall i, j :: 0 <= i <= j < |times| ==> times[i] <= times[j]
  }

  // ----- The fate of one message -----

  predicate StaysThrough(m: Element, segments: seq<seq<Word64>>, times: seq<int>)
    requires |times| == |segments|
    decreases |segments|
  {
    segments == [] || (Stays(m, segments[0], times[0], true) && StaysThrough(m, segments[1..], times[1..]))
  }

  predicate ResentOnTheWay(m: Element, segments: seq<seq<Word64>>, times: seq<int>)
    requires |times| == |segments|
    decreases |segments|
  {
    && segments != []
    && (Expires(m, segments[0], times[0])
        || (Stays(m, segments[0], times[0], true) && ResentOnTheWay(m, segments[1..], times[1..])))
  }

  // Some packet is read when the message has expired, and only a later one names it.
  predicate AckedTooLate(m: Element, segments: seq<seq<Word64>>, times: seq<int>)
    requires |times| == |segments|
    decreases |segments|
  {
    && segments != [] && m.id !in segments[0] && m.id in Concat(segments[1..])
    && (TimedOut(m, times[0]) || AckedTooLate(m, segments[1..], times[1..]))
  }

  function Surviving(segments: seq<seq<Word64>>, times: seq<int>): Element -> bool
    requires |times| == |segments|
  {
    (m: Element) => StaysThrough(m, segments, times)
  }

  function Resending(segments: seq<seq<Word64>>, times: seq<int>): Element -> bool
    requires |times| == |segments|
  {
    (m: Element) => ResentOnTheWay(m, segments, times)
  }

  lemma {:induction false} ReverseMultiset(s: seq<Element>)
    ensures multiset(Reverse(s)) == multiset(s)
  {
    if s != [] {
      ReverseMultiset(s[1..]);
      assert s == [s[0]] + s[1..];
    }
  }

  lemma {:induction false} FilterUnion(s: seq<Element>, p: Element -> bool, q: Element -> bool, r: Element -> bool,
                                       either: Element -> bool)
    requires forall m :: !(p(m) && q(m))
    requires forall m :: either(m) <==> p(m) || (q(m) && r(m))
    ensures multiset(Filter(s, p)) + multiset(Filter(Filter(s, q), r)) == multiset(Filter(s, either))
  {
    if s != [] {
      var m, tail := s[0], s[1..];
      FilterUnion(tail, p, q, r, either);
      FilterHead(s, p);
      FilterHead(s, q);
      FilterHead(s, either);
      if q(m) {
        FilterHead([m] + Filter(tail, q), r);
        assert ([m] + Filter(tail, q))[1..] == Filter(tail, q);
      }
    }
  }

  lemma FilterHead(s: seq<Element>, keep: Element -> bool)
    requires s != []
    ensures Filter(s, keep) == if keep(s[0]) then [s[0]] + Filter(s[1..], keep) else Filter(s[1..], keep)
    ensures multiset(Filter(s, keep))
         == (if keep(s[0]) then multiset{s[0]} else multiset{}) + multiset(Filter(s[1..], keep))
  {
    assert [] + Filter(s[1..], keep) == Filter(s[1..], keep);
  }

  lemma {:induction false} FilterSame(s: seq<Element>, p: Element -> bool, q: Element -> bool)
    requires forall m :: p(m) <==> q(m)
    ensures Filter(s, p) == Filter(s, q)
  {
    if s != [] {
      FilterSame(s[1..], p, q);
    }
  }

  lemma {:induction false} FilterGrows(s: seq<Element>, p: Element -> bool, q: Element -> bool)
    requires forall m :: p(m) ==> q(m)
    ensures multiset(Filter(s, p)) <= multiset(Filter(s, q))
    ensures |Filter(s, p)| <= |Filter(s, q)|
    ensures |Filter(s, p)| == |Filter(s, q)| <==> forall m :: m in s && q(m) ==> p(m)
  {
    if s != [] {
      FilterGrows(s[1..], p, q);
      FilterHead(s, p);
      FilterHead(s, q);
      assert s == [s[0]] + s[1..];
    }
  }

  // Sweeping packet by packet treats every message by its own fate, whatever the readings.
  lemma {:induction false} SweepIsFate(s: seq<Element>, segments: seq<seq<Word64>>, times: seq<int>)
    requires |times| == |segments|
    ensures Sweep(s, segments, Readings(times)).0 == Filter(s, Surviving(segments, times))
    ensures multiset(Sweep(s, segments, Readings(times)).1) == multiset(Filter(s, Resending(segments, times)))
    decreases |segments|
  {
    if segments == [] {
      FilterAll(s, Surviving(segments, times));
      FilterNone(s, Resending(segments, times));
    } else {
      var first, now := segments[0], times[0];
      var later, rest := segments[1..], times[1..];
      var after := Kept(s, first, Fixed(now), true);
      assert Readings(times)[1..] == Readings(rest);
      SweepIsFilter(s, first, now, true);
      SweepIsFate(after, later, rest);
      FilterTwice(s, Staying(first, now, true), Surviving(later, rest), Surviving(segments, times));
      ReverseMultiset(Filter(s, Expiring(first, now)));
      FilterUnion(s, Expiring(first, now), Staying(first, now, true), Resending(later, rest),
                  Resending(segments, times));
    }
  }

  lemma {:induction false} FilterAll(s: seq<Element>, keep: Element -> bool)
    requires forall m :: keep(m)
    ensures Filter(s, keep) == s
  {
    if s != [] {
      FilterAll(s[1..], keep);
    }
  }

  lemma LaterExpires(m: Element, now: int, later: int)
    requires now <= later && TimedOut(m, now)
    ensures TimedOut(m, later)
  {
    DefaultTimeout(m, now);
    DefaultTimeout(m, later);
  }

  lemma InTimeOrderTail(times: seq<int>)
    requires InTimeOrder(times) && |times| > 1
    ensures InTimeOrder(times[1..]) && times[1..][|times| - 2] == times[|times| - 1] && times[0] <= times[|times| - 1]
  {
  }

  // While time does not run backward, a message stays through all packets exactly if one packet with all their
  // ids, read last, would let it stay; and it is resent exactly if that one packet would have it resent, or if it
  // is acknowledged too late.
  lemma {:induction false} FateOfOne(m: Element, segments: seq<seq<Word64>>, times: seq<int>)
    requires |times| == |segments| > 0 && InTimeOrder(times)
    ensures var all, last := Concat(segments), times[|times| - 1];
      && (StaysThrough(m, segments, times) <==> Stays(m, all, last, true))
      && (ResentOnTheWay(m, segments, times) <==> Expires(m, all, last) || AckedTooLate(m, segments, times))
    decreases |segments|
  {
    var first, later := segments[0], Concat(segments[1..]);
    if |segments| == 1 {
      assert segments[1..] == [] && first + later == first;
    } else {
      InTimeOrderTail(times);
      FateOfOne(m, segments[1..], times[1..]);
      if TimedOut(m, times[0]) {
        LaterExpires(m, times[0], times[|times| - 1]);
      }
    }
  }

  // ----- The whole list -----

  // What stays pending is what one packet with all the ids would leave, read when the last packet is read.
  lemma SegmentsKeepTheSame(s: seq<Element>, segments: seq<seq<Word64>>, times: seq<int>)
    requires |times| == |segments| > 0 && InTimeOrder(times)
    ensures Sweep(s, segments, Readings(times)).0 == Kept(s, Concat(segments), Fixed(times[|times| - 1]), true)
  {
    var all, last := Concat(segments), times[|times| - 1];
    SweepIsFate(s, segments, times);
    SweepIsFilter(s, all, last, true);
    forall m ensures StaysThrough(m, segments, times) <==> Stays(m, all, last, true) {
      FateOfOne(m, segments, times);
    }
    FilterSame(s, Surviving(segments, times), Staying(all, last, true));
  }

  // Cutting the list never loses a resend, and it adds none exactly when no message is acknowledged too late.
  lemma SegmentsResendMore(s: seq<Element>, segments: seq<seq<Word64>>, times: seq<int>)
    requires |times| == |segments| > 0 && InTimeOrder(times)
    ensures var cut := Sweep(s, segments, Readings(times)).1;
      var whole := Missed(s, Concat(segments), Fixed(times[|times| - 1]));
      && multiset(whole) <= multiset(cut) && |whole| <= |cut|
      && (|cut| == |whole| <==> forall i :: 0 <= i < |s| ==> !AckedTooLate(s[i], segments, times))
  {
    var all, last := Concat(segments), times[|times| - 1];
    var cut, whole := Resending(segments, times), Expiring(all, last);
    SweepIsFate(s, segments, times);
    SweepIsFilter(s, all, last, true);
    ReverseMultiset(Filter(s, whole));
    forall m ensures cut(m) <==> whole(m) || AckedTooLate(m, segments, times)
             ensures !(whole(m) && AckedTooLate(m, segments, times)) {
      FateOfOne(m, segments, times);
    }
    FilterGrows(s, whole, cut);
    SameSize(Sweep(s, segments, Readings(times)).1, Filter(s, cut));
    SameSize(Missed(s, all, Fixed(last)), Filter(s, whole));
  }

  lemma SameSize(a: seq<Element>, b: seq<Element>)
    requires multiset(a) == multiset(b)
    ensures |a| == |b|
  {
    assert |multiset(a)| == |a| && |multiset(b)| == |b|;
  }

  // ----- One reading for all packets -----

  function Always(now: int, n: nat): (r: seq<int>)
    ensures |r| == n && forall i :: 0 <= i < n ==> r[i] == now
    ensures InTimeOrder(r)
  {
    seq(n, i => now)
  }

  // When all packets are read at once, everything expired and absent from the first is resent there and then, and
  // too late means: named later, but not by the first.
  lemma {:induction false} AllAtOnce(s: seq<Element>, segments: seq<seq<Word64>>, now: int)
    requires segments != []
    ensures var times := Always(now, |segments|);
      && Sweep(s, segments, Readings(times)).1 == Missed(s, segments[0], Fixed(now))
      && forall m :: AckedTooLate(m, segments, times)
                <==> m.id !in segments[0] && m.id in Concat(segments[1..]) && TimedOut(m, now)
    decreases |segments|
  {
    var times := Always(now, |segments|);
    var after := Kept(s, segments[0], Fixed(now), true);
    var missed := Missed(s, segments[0], Fixed(now));
    assert Readings(times)[1..] == Readings(times[1..]);
    if |segments| == 1 {
      assert segments[1..] == [] && missed + [] == missed;
    } else {
      assert times[1..] == Always(now, |segments| - 1);
      AllAtOnce(after, segments[1..], now);
      KeptTwice(s, segments[0], segments[1], now);
      assert missed + [] == missed;
    }
  }

  // Two acknowledgements at one reading keep what their concatenation keeps, and the second resends nothing.
  lemma KeptTwice(s: seq<Element>, a: seq<Word64>, b: seq<Word64>, now: int)
    ensures Kept(Kept(s, a, Fixed(now), true), b, Fixed(now), true) == Kept(s, a + b, Fixed(now), true)
    ensures Missed(Kept(s, a, Fixed(now), true), b, Fixed(now)) == []
  {
    var after := Kept(s, a, Fixed(now), true);
    SweepIsFilter(s, a, now, true);
    SweepIsFilter(after, b, now, true);
    SweepIsFilter(s, a + b, now, true);
    FilterTwice(s, Staying(a, now, true), Staying(b, now, true), Staying(a + b, now, true));
    FilterMembers(s, Staying(a, now, true));
    FilterNone(after, Expiring(b, now));
  }

  // ----- A reading for every message of every packet -----

  // Whatever the clocks do between two bounds, what stays lies between what the bounds would leave, and what is
  // resent between what the first segment alone would have resent at either.
  lemma {:induction false} SegmentsBetweenReadings(s: seq<Element>, segments: seq<seq<Word64>>, clocks: seq<Clock>,
                                                   earliest: int, latest: int)
    requires |clocks| == |segments| > 0
    requires forall j, i: nat :: 0 <= j < |clocks| ==> earliest <= clocks[j](i) <= latest
    ensures forall m :: m in s && Stays(m, Concat(segments), latest, true) ==> m in Sweep(s, segments, clocks).0
    ensures forall m :: m in Sweep(s, segments, clocks).0 ==> m in s && Stays(m, Concat(segments), earliest, true)
    ensures forall m :: m in s && Expires(m, segments[0], earliest) ==> m in Sweep(s, segments, clocks).1
    ensures forall m :: m in Sweep(s, segments, clocks).1 ==> m in s && Expires(m, segments[0], latest)
    decreases |segments|
  {
    var first, later := segments[0], segments[1..];
    var after := Kept(s, first, clocks[0], true);
    BetweenReadings(s, first, clocks[0], earliest, latest);
    SweepMembers(s, first, earliest, true);
    SweepMembers(s, first, latest, true);
    if later == [] {
      assert first + [] == first;
    } else {
      SegmentsBetweenReadings(after, later, clocks[1..], earliest, latest);
    }
  }

  // ----- One acknowledgement for many, whatever the clocks -----

  // How often one packet with all ids would have a message resent, given what two packets resend.
  ghost predicate OneResends(s: seq<Element>, all: seq<Word64>, clock: Clock, resent: seq<Element>) {
    forall m :: multiset(Missed(s, all, clock))[m] == if m.id in all then 0 else multiset(resent)[m]
  }

  lemma OneMore(s: seq<Element>, a: seq<Word64>, b: seq<Word64>, first: Clock, second: Clock, clock: Clock)
    requires s != []
    requires var n := |s| - 1;
      && OneServes(s[..n], a, b, first, second, clock)
      && clock(n) == if Stays(s[n], a, first(n), true) then second(|Kept(s[..n], a, first, true)|) else first(n)
    ensures OneServes(s, a, b, first, second, clock)
  {
    var n := |s| - 1;
    var kept := Kept(s[..n], a, first, true);
    SweepLast(s, a, first);
    SweepLast(s, a + b, clock);
    if Stays(s[n], a, first(n), true) {
      assert (kept + [s[n]])[..|kept|] == kept;
      SweepLast(kept + [s[n]], b, second);
    }
    var after := Kept(s, a, first, true);
    assert Kept(after, b, second, true) == Kept(s, a + b, clock, true);
    var missed, late, whole := Missed(s[..n], a, first), Missed(kept, b, second), Missed(s[..n], a + b, clock);
    forall x
      ensures multiset(Missed(s, a + b, clock))[x]
           == if x.id in a + b then 0 else multiset(Missed(s, a, first) + Missed(after, b, second))[x]
    {
      OneMoreCount(x, s[n], a, b, first(n), second(|kept|), missed, late, whole);
    }
  }

  function PutFirst(taken: bool, m: Element, s: seq<Element>): seq<Element> {
    if taken then [m] + s else s
  }

  lemma OneMoreCount(x: Element, m: Element, a: seq<Word64>, b: seq<Word64>, now: int, later: int,
                     missed: seq<Element>, late: seq<Element>, whole: seq<Element>)
    requires multiset(whole)[x] == if x.id in a + b then 0 else multiset(missed + late)[x]
    ensures var stays := Stays(m, a, now, true);
      multiset(PutFirst(Expires(m, a + b, if stays then later else now), m, whole))[x]
      == if x.id in a + b then 0
         else multiset(PutFirst(Expires(m, a, now), m, missed) + PutFirst(stays && Expires(m, b, later), m, late))[x]
  {
    CountWith(x, m, whole, []);
    CountWith(x, m, missed, late);
  }

  lemma CountWith(x: Element, m: Element, a: seq<Element>, b: seq<Element>)
    ensures multiset([m] + a)[x] == multiset(a)[x] + if x == m then 1 else 0
    ensures multiset([m] + a + b)[x] == multiset(a + b)[x] + if x == m then 1 else 0
    ensures multiset(a + ([m] + b))[x] == multiset(a + b)[x] + if x == m then 1 else 0
  {
  }

  // Any two acknowledgements, read by any clocks, keep what one with all the ids keeps when every message is read
  // at one of the readings it had, and that one resends what the two resend and do not name.
  ghost predicate OneServes(s: seq<Element>, a: seq<Word64>, b: seq<Word64>, first: Clock, second: Clock,
                            clock: Clock)
  {
    var after := Kept(s, a, first, true);
    && Kept(after, b, second, true) == Kept(s, a + b, clock, true)
    && OneResends(s, a + b, clock, Missed(s, a, first) + Missed(after, b, second))
  }

  // One of the first `n` readings.
  ghost predicate IsReading(now: int, clock: Clock, n: nat) {
    exists i :: 0 <= i < n && clock(i) == now
  }

  ghost predicate ReadsOneOf(n: nat, clock: Clock, first: Clock, second: Clock, size: nat) {
    forall i :: 0 <= i < n ==> clock(i) == first(i) || IsReading(clock(i), second, size)
  }

  lemma {:induction false} OneForTwo(s: seq<Element>, a: seq<Word64>, b: seq<Word64>, first: Clock, second: Clock)
    returns (clock: Clock)
    ensures OneServes(s, a, b, first, second, clock)
    ensures ReadsOneOf(|s|, clock, first, second, |Kept(s, a, first, true)|)
  {
    if s == [] {
      clock := first;
    } else {
      var n := |s| - 1;
      var kept := Kept(s[..n], a, first, true);
      var front := OneForTwo(s[..n], a, b, first, second);
      var last := if Stays(s[n], a, first(n), true) then second(|kept|) else first(n);
      clock := Extended(front, n, last);
      ServesAgain(s[..n], a, b, first, second, front, clock);
      OneMore(s, a, b, first, second, clock);
      ReadsFurther(n, front, first, second, clock, |kept|, |Kept(s, a, first, true)|);
    }
  }

  lemma ReadsFurther(n: nat, clock: Clock, first: Clock, second: Clock, further: Clock, size: nat, larger: nat)
    requires ReadsOneOf(n, clock, first, second, size) && forall i :: 0 <= i < n ==> further(i) == clock(i)
    requires size <= larger && (further(n) == first(n) || (further(n) == second(size) && size < larger))
    ensures ReadsOneOf(n + 1, further, first, second, larger)
  {
    assert further(n) != first(n) ==> IsReading(further(n), second, larger);
    forall i | 0 <= i < n && IsReading(clock(i), second, size)
      ensures IsReading(further(i), second, larger)
    {
      var j :| 0 <= j < size && second(j) == clock(i);
    }
  }

  lemma ServesAgain(s: seq<Element>, a: seq<Word64>, b: seq<Word64>, first: Clock, second: Clock, clock: Clock,
                    other: Clock)
    requires OneServes(s, a, b, first, second, clock) && forall i :: 0 <= i < |s| ==> clock(i) == other(i)
    ensures OneServes(s, a, b, first, second, other)
  {
    SameReadings(s, a + b, clock, other);
  }

  function Extended(front: Clock, n: nat, last: int): (clock: Clock)
    ensures clock(n) == last && forall i :: 0 <= i < n ==> clock(i) == front(i)
  {
    (i: nat) => if i < n then front(i) else last
  }

  lemma {:induction false} SameReadings(s: seq<Element>, acks: seq<Word64>, clock: Clock, other: Clock)
    requires forall i :: 0 <= i < |s| ==> clock(i) == other(i)
    ensures Kept(s, acks, clock, true) == Kept(s, acks, other, true)
    ensures Missed(s, acks, clock) == Missed(s, acks, other)
  {
    if s != [] {
      SameReadings(s[..|s| - 1], acks, clock, other);
    }
  }

  lemma {:induction false} MissedUnnamed(s: seq<Element>, acks: seq<Word64>, clock: Clock)
    ensures forall m :: m in Missed(s, acks, clock) ==> m.id !in acks
  {
    if s != [] {
      MissedUnnamed(s[..|s| - 1], acks, clock);
    }
  }

  ghost predicate ReadsAny(n: nat, clock: Clock, clocks: seq<Clock>, size: nat) {
    forall i :: 0 <= i < n ==> exists j :: 0 <= j < |clocks| && IsReading(clock(i), clocks[j], size)
  }

  // Whatever the clocks do, a segmented acknowledgement leaves exactly what one with all the ids leaves when every
  // message is read at one of the readings the clocks gave; and it resends what that one does, and beyond it only
  // messages that the segments name.
  lemma {:induction false} SegmentsAreOne(s: seq<Element>, segments: seq<seq<Word64>>, clocks: seq<Clock>)
    returns (clock: Clock)
    requires |clocks| == |segments| > 0
    ensures Sweep(s, segments, clocks).0 == Kept(s, Concat(segments), clock, true)
    ensures OneResends(s, Concat(segments), clock, Sweep(s, segments, clocks).1)
    ensures ReadsAny(|s|, clock, clocks, |s|)
    decreases |segments|
  {
    var a, later := segments[0], segments[1..];
    var after, missed := Kept(s, a, clocks[0], true), Missed(s, a, clocks[0]);
    if later == [] {
      clock := clocks[0];
      assert a + [] == a && missed + [] == missed;
      MissedUnnamed(s, a, clock);
      assert forall i :: 0 <= i < |s| ==> IsReading(clock(i), clocks[0], |s|);
    } else {
      var rest := SegmentsAreOne(after, later, clocks[1..]);
      clock := OneForTwo(s, a, Concat(later), clocks[0], rest);
      ResendsInAll(s, a, Concat(later), clocks[0], rest, clock, Sweep(after, later, clocks[1..]).1);
      ReadsInAll(s, a, clocks, rest, clock);
    }
  }

  lemma ResendsInAll(s: seq<Element>, a: seq<Word64>, b: seq<Word64>, first: Clock, rest: Clock, clock: Clock,
                     resent: seq<Element>)
    requires OneServes(s, a, b, first, rest, clock) && OneResends(Kept(s, a, first, true), b, rest, resent)
    ensures OneResends(s, a + b, clock, Missed(s, a, first) + resent)
  {
    var missed, late := Missed(s, a, first), Missed(Kept(s, a, first, true), b, rest);
    forall m
      ensures multiset(Missed(s, a + b, clock))[m] == if m.id in a + b then 0 else multiset(missed + resent)[m]
    {
      assert multiset(missed + late)[m] == multiset(missed)[m] + multiset(late)[m];
      assert multiset(missed + resent)[m] == multiset(missed)[m] + multiset(resent)[m];
    }
  }

  lemma ReadsInAll(s: seq<Element>, a: seq<Word64>, clocks: seq<Clock>, rest: Clock, clock: Clock)
    requires clocks != []
    requires var size := |Kept(s, a, clocks[0], true)|;
      ReadsOneOf(|s|, clock, clocks[0], rest, size) && ReadsAny(size, rest, clocks[1..], size)
    ensures ReadsAny(|s|, clock, clocks, |s|)
  {
    var size := |Kept(s, a, clocks[0], true)|;
    KeptShrinks(s, a, clocks[0]);
    forall i | 0 <= i < |s|
      ensures exists j :: 0 <= j < |clocks| && IsReading(clock(i), clocks[j], |s|)
    {
      if clock(i) == clocks[0](i) {
        assert IsReading(clock(i), clocks[0], |s|);
      } else {
        var k :| 0 <= k < size && rest(k) == clock(i);
        var j :| 0 <= j < |clocks[1..]| && IsReading(rest(k), clocks[1..][j], size);
        assert clocks[1..][j] == clocks[j + 1];
        var h :| 0 <= h < size && clocks[j + 1](h) == clock(i);
        assert IsReading(clock(i), clocks[j + 1], |s|);
      }
    }
  }

  lemma {:induction false} KeptShrinks(s: seq<Element>, acks: seq<Word64>, clock: Clock)
    ensures |Kept(s, acks, clock, true)| <= |s|
  {
    if s != [] {
      KeptShrinks(s[..|s| - 1], acks, clock);
    }
  }
}
