/** What one acknowledgement does to the pending messages, as a function of the pending list. */
module AckDiff {
  import opened Words
  import opened Messages

  // The reading taken when the element at an index is examined; the source reads the clock once per element.
  type Clock = nat -> int

  function Fixed(now: int): Clock {
    (i: nat) => now
  }

  const DEFAULT_TIMEOUT_MS := 2000

  predicate CheckMessageTimeout(m: Element, now: int, timeout: int) {
    && m.Msg?
    && TruncDiv(now - m.timestamp, 1000) > (if timeout == 0 then DEFAULT_TIMEOUT_MS else timeout)
  }

  predicate TimedOut(m: Element, now: int) {
    CheckMessageTimeout(m, now, 0)
  }

  // With the default timeout a message expires 2.001 s after its timestamp, in microseconds.
  lemma DefaultTimeout(m: Element, now: int)
    ensures TimedOut(m, now) <==> m.Msg? && now - m.timestamp >= 2_001_000
  {
  }

  // With any other limit, in milliseconds: division truncates toward zero, so a negative limit is crossed at once.
  lemma GivenTimeout(m: Element, now: int, timeout: int)
    requires m.Msg? && timeout != 0
    ensures timeout > 0 ==> (CheckMessageTimeout(m, now, timeout) <==> now - m.timestamp >= 1000 * (timeout + 1))
    ensures timeout < 0 ==> (CheckMessageTimeout(m, now, timeout) <==> now - m.timestamp > 1000 * timeout)
  {
    var d := now - m.timestamp;
    if d < 0 {
      assert (-d) / 1000 * 1000 <= -d < (-d) / 1000 * 1000 + 1000;
    }
  }

  predicate Stays(m: Element, acks: seq<Word64>, now: int, resending: bool) {
    m.id !in acks && !(resending && TimedOut(m, now))
  }

  predicate Expires(m: Element, acks: seq<Word64>, now: int) {
    m.id !in acks && TimedOut(m, now)
  }

  // The messages still pending afterwards, in order.
  function Kept(s: seq<Element>, acks: seq<Word64>, clock: Clock, resending: bool): seq<Element> {
    if s == [] then []
    else
      var n := |s| - 1;
      Kept(s[..n], acks, clock, resending) + if Stays(s[n], acks, clock(n), resending) then [s[n]] else []
  }

  // The missed messages, in the order they are resent: last first.
  function Missed(s: seq<Element>, acks: seq<Word64>, clock: Clock): seq<Element> {
    if s == [] then []
    else
      var n := |s| - 1;
      (if Expires(s[n], acks, clock(n)) then [s[n]] else []) + Missed(s[..n], acks, clock)
  }

  lemma SweepLast(s: seq<Element>, acks: seq<Word64>, clock: Clock)
    requires s != []
    ensures var n := |s| - 1;
      var kept, missed := Kept(s[..n], acks, clock, true), Missed(s[..n], acks, clock);
      && Kept(s, acks, clock, true) == (if Stays(s[n], acks, clock(n), true) then kept + [s[n]] else kept)
      && Missed(s, acks, clock) == if Expires(s[n], acks, clock(n)) then [s[n]] + missed else missed
  {
    var n := |s| - 1;
    var kept, missed := Kept(s[..n], acks, clock, true), Missed(s[..n], acks, clock);
    assert kept + [] == kept && [] + missed == missed;
  }

  // ----- At one clock value the sweep is a pair of filters -----

  function Filter(s: seq<Element>, keep: Element -> bool): seq<Element> {
    if s == [] then [] else (if keep(s[0]) then [s[0]] else []) + Filter(s[1..], keep)
  }

  function Reverse(s: seq<Element>): seq<Element> {
    if s == [] then [] else Reverse(s[1..]) + [s[0]]
  }

  function Staying(acks: seq<Word64>, now: int, resending: bool): Element -> bool {
    (m: Element) => Stays(m, acks, now, resending)
  }

  function Expiring(acks: seq<Word64>, now: int): Element -> bool {
    (m: Element) => Expires(m, acks, now)
  }

  lemma {:induction false} FilterAppend(a: seq<Element>, b: seq<Element>, keep: Element -> bool)
    ensures Filter(a + b, keep) == Filter(a, keep) + Filter(b, keep)
  {
    if a == [] {
      assert a + b == b;
    } else {
      assert (a + b)[1..] == a[1..] + b;
      FilterAppend(a[1..], b, keep);
      RegroupIf(keep(a[0]), a[0], Filter(a[1..], keep), Filter(b, keep));
    }
  }

  lemma RegroupIf<T>(taken: bool, x: T, a: seq<T>, b: seq<T>)
    ensures (if taken then [x] else []) + (a + b) == (if taken then [x] else []) + a + b
  {
  }

  lemma {:induction false} ReverseAppend(a: seq<Element>, b: seq<Element>)
    ensures Reverse(a + b) == Reverse(b) + Reverse(a)
  {
    if a == [] {
      assert a + b == b;
    } else {
      assert (a + b)[1..] == a[1..] + b;
      ReverseAppend(a[1..], b);
    }
  }

  // The backward walk that removes as it goes is a front-to-back filter; what it resends is the complementary
  // filter, reversed.
  lemma {:induction false} SweepIsFilter(s: seq<Element>, acks: seq<Word64>, now: int, resending: bool)
    ensures Kept(s, acks, Fixed(now), resending) == Filter(s, Staying(acks, now, resending))
    ensures Missed(s, acks, Fixed(now)) == Reverse(Filter(s, Expiring(acks, now)))
  {
    if s != [] {
      var n := |s| - 1;
      var last := [s[n]];
      assert s == s[..n] + last;
      SweepIsFilter(s[..n], acks, now, resending);
      FilterAppend(s[..n], last, Staying(acks, now, resending));
      FilterAppend(s[..n], last, Expiring(acks, now));
      FilterOne(s[n], Staying(acks, now, resending));
      FilterOne(s[n], Expiring(acks, now));
      ReverseAppend(Filter(s[..n], Expiring(acks, now)), Filter(last, Expiring(acks, now)));
    }
  }

  lemma FilterOne(m: Element, keep: Element -> bool)
    ensures Filter([m], keep) == if keep(m) then [m] else []
    ensures Reverse(Filter([m], keep)) == Filter([m], keep)
  {
    assert [m][1..] == [];
  }

  lemma {:induction false} FilterTwice(s: seq<Element>, p: Element -> bool, q: Element -> bool, both: Element -> bool)
    requires forall m :: both(m) <==> p(m) && q(m)
    ensures Filter(Filter(s, p), q) == Filter(s, both)
  {
    if s != [] {
      FilterTwice(s[1..], p, q, both);
      var rest := Filter(s[1..], p);
      if p(s[0]) {
        assert Filter(s, p) == [s[0]] + rest && ([s[0]] + rest)[1..] == rest;
      } else {
        assert Filter(s, p) == rest;
      }
    }
  }

  lemma {:induction false} FilterMembers(s: seq<Element>, keep: Element -> bool)
    ensures forall m :: m in Filter(s, keep) <==> m in s && keep(m)
  {
    if s != [] {
      FilterMembers(s[1..], keep);
      assert s == [s[0]] + s[1..];
    }
  }

  lemma {:induction false} FilterNone(s: seq<Element>, keep: Element -> bool)
    requires forall m :: m in s ==> !keep(m)
    ensures Filter(s, keep) == []
  {
    if s != [] {
      FilterNone(s[1..], keep);
    }
  }

  lemma {:induction false} ReverseMembers(s: seq<Element>)
    ensures forall m :: m in Reverse(s) <==> m in s
    ensures |Reverse(s)| == |s|
  {
    if s != [] {
      ReverseMembers(s[1..]);
      assert s == [s[0]] + s[1..];
    }
  }

  // Exactly the unacknowledged, unexpired messages stay; exactly the unacknowledged, expired ones are missed.
  lemma SweepMembers(s: seq<Element>, acks: seq<Word64>, now: int, resending: bool)
    ensures forall m :: m in Kept(s, acks, Fixed(now), resending) <==> m in s && Stays(m, acks, now, resending)
    ensures forall m :: m in Missed(s, acks, Fixed(now)) <==> m in s && Expires(m, acks, now)
  {
    SweepIsFilter(s, acks, now, resending);
    FilterMembers(s, Staying(acks, now, resending));
    FilterMembers(s, Expiring(acks, now));
    ReverseMembers(Filter(s, Expiring(acks, now)));
  }

  // ----- Only the set of acknowledged ids matters -----

  lemma {:induction false} OnlyTheSetMatters(s: seq<Element>, a: seq<Word64>, b: seq<Word64>, clock: Clock,
                                             resending: bool)
    requires forall id :: id in a <==> id in b
    ensures Kept(s, a, clock, resending) == Kept(s, b, clock, resending)
    ensures Missed(s, a, clock) == Missed(s, b, clock)
  {
    if s != [] {
      OnlyTheSetMatters(s[..|s| - 1], a, b, clock, resending);
    }
  }

  // Replaying an acknowledgement at the same clock value does nothing.
  lemma ReplayDoesNothing(s: seq<Element>, acks: seq<Word64>, now: int)
    ensures var after := Kept(s, acks, Fixed(now), true);
      Kept(after, acks, Fixed(now), true) == after && Missed(after, acks, Fixed(now)) == []
  {
    var stay := Staying(acks, now, true);
    var after := Kept(s, acks, Fixed(now), true);
    SweepIsFilter(s, acks, now, true);
    SweepIsFilter(after, acks, now, true);
    FilterTwice(s, stay, stay, stay);
    FilterMembers(s, stay);
    FilterNone(after, Expiring(acks, now));
  }

  // ----- Any clock -----

  // Time passing during the walk only moves messages from kept to missed: the outcome lies between those of
  // its earliest and its latest reading.
  lemma {:induction false} BetweenReadings(s: seq<Element>, acks: seq<Word64>, clock: Clock, earliest: int, latest: int)
    requires forall i :: 0 <= i < |s| ==> earliest <= clock(i) <= latest
    ensures forall m :: m in Kept(s, acks, Fixed(latest), true) ==> m in Kept(s, acks, clock, true)
    ensures forall m :: m in Kept(s, acks, clock, true) ==> m in Kept(s, acks, Fixed(earliest), true)
    ensures |Missed(s, acks, Fixed(earliest))| <= |Missed(s, acks, clock)| <= |Missed(s, acks, Fixed(latest))|
    ensures forall m :: m in Missed(s, acks, Fixed(earliest)) ==> m in Missed(s, acks, clock)
    ensures forall m :: m in Missed(s, acks, clock) ==> m in Missed(s, acks, Fixed(latest))
  {
    if s != [] {
      var n := |s| - 1;
      BetweenReadings(s[..n], acks, clock, earliest, latest);
      DefaultTimeout(s[n], clock(n));
      DefaultTimeout(s[n], earliest);
      DefaultTimeout(s[n], latest);
    }
  }

  // Once every pending message has expired, any acknowledgement at all empties the list.
  lemma {:induction false} ExpiredDrain(s: seq<Element>, acks: seq<Word64>, clock: Clock)
    requires forall i :: 0 <= i < |s| ==> TimedOut(s[i], clock(i))
    ensures Kept(s, acks, clock, true) == []
  {
    if s != [] {
      ExpiredDrain(s[..|s| - 1], acks, clock);
    }
  }

  // Without a radio nothing unacknowledged is dropped.
  lemma {:induction false} NoRadioKeepsUnacked(s: seq<Element>, acks: seq<Word64>, clock: Clock)
    ensures forall m :: m in Kept(s, acks, clock, false) <==> m in s && m.id !in acks
  {
    if s != [] {
      assert s == s[..|s| - 1] + [s[|s| - 1]];
      NoRadioKeepsUnacked(s[..|s| - 1], acks, clock);
    }
  }
}
