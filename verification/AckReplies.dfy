/** A server's reply and the client that reads it, packet by packet and with a fresh clock reading for each. */
module AckReplies {
  import opened Words
  import opened Sequences
  import opened CText
  import opened Messages
  import opened AckDiff
  import opened SegmentedAcks
  import opened Arrivals
  import opened Packing
  import opened WireIds
  import opened Endpoints

  // ----- Sends between packets -----

  datatype Draft = Draft(content: CString, timestamp: Int64)

  function AfterSends(c: ClientState, drafts: seq<Draft>): ClientState
    decreases |drafts|
  {
    if drafts == [] then c
    else AfterSends(AfterSend(c, drafts[0].content, drafts[0].timestamp), drafts[1..])
  }

  function CounterOf(counter: Word64, drafts: seq<Draft>): Word64
    decreases |drafts|
  {
    if drafts == [] then counter else CounterOf(NextId(counter), drafts[1..])
  }

  function Sent(counter: Word64, drafts: seq<Draft>): seq<Element>
    decreases |drafts|
  {
    if drafts == [] then []
    else [Msg(NextId(counter), Some(drafts[0].content), drafts[0].timestamp)] + Sent(NextId(counter), drafts[1..])
  }

  lemma {:induction false} SendsAppend(c: ClientState, drafts: seq<Draft>)
    ensures AfterSends(c, drafts)
         == c.(counter := CounterOf(c.counter, drafts), pending := c.pending + Sent(c.counter, drafts))
    decreases |drafts|
  {
    if drafts == [] {
      assert c.pending + [] == c.pending;
    } else {
      var m := NewMessage(c, drafts[0].content, drafts[0].timestamp);
      var rest := Sent(m.id, drafts[1..]);
      SendsAppend(AfterSend(c, drafts[0].content, drafts[0].timestamp), drafts[1..]);
      assert c.pending + [m] + rest == c.pending + ([m] + rest);
    }
  }

  // The messages sent after each packet.
  function Arriving(counter: Word64, sends: seq<seq<Draft>>): (r: seq<seq<Element>>)
    ensures |r| == |sends|
    decreases |sends|
  {
    if sends == [] then [] else [Sent(counter, sends[0])] + Arriving(CounterOf(counter, sends[0]), sends[1..])
  }

  // ----- Reading a reply -----

  // The responder takes the packets one after the other, adding each result to the total before the next, and
  // after each some messages are sent.
  function AfterReply(c: ClientState, packets: seq<string>, clocks: seq<Clock>, sends: seq<seq<Draft>>): ClientState
    requires |clocks| == |packets| == |sends|
    decreases |packets|
  {
    if packets == [] then c
    else
      var d := AfterAck(c, packets[0], clocks[0]);
      var e := if d.toCount.Some? then AfterCount(d) else d;
      AfterReply(AfterSends(e, sends[0]), packets[1..], clocks[1..], sends[1..])
  }

  lemma {:induction false} ReplyIsSweep(c: ClientState, packets: seq<string>, clocks: seq<Clock>,
                                        sends: seq<seq<Draft>>)
    requires |clocks| == |packets| == |sends|
    requires c.toCount.None? && forall i :: 0 <= i < |packets| ==> packets[i] != "STOP"
    ensures var swept := SweepArriving(c.pending, ParseAll(packets), clocks, Arriving(c.counter, sends));
      var after := AfterReply(c, packets, clocks, sends);
      && after.pending == swept.0 && after.missed == c.missed + |swept.1|
      && after.toCount.None? && after.listening == c.listening
    decreases |packets|
  {
    if packets == [] {
      assert ParseAll(packets) == [];
    } else {
      var d := AfterCount(AfterAck(c, packets[0], clocks[0]));
      SendsAppend(d, sends[0]);
      assert ParseAll(packets)[1..] == ParseAll(packets[1..]);
      ReplyIsSweep(AfterSends(d, sends[0]), packets[1..], clocks[1..], sends[1..]);
    }
  }

  // What a reply makes of the messages sent while it is read.
  function Meanwhile(c: ClientState, packets: seq<string>, clocks: seq<Clock>, sends: seq<seq<Draft>>)
    : (seq<Element>, seq<Element>)
    requires |clocks| == |packets| == |sends|
  {
    var segments := ParseAll(packets);
    SweepArriving([], segments, Behind(c.pending, segments, clocks), Arriving(c.counter, sends))
  }

  // What was pending is swept as if nothing had been sent meanwhile.
  lemma ReplyInTwo(c: ClientState, packets: seq<string>, clocks: seq<Clock>, sends: seq<seq<Draft>>)
    requires |clocks| == |packets| == |sends|
    requires c.toCount.None? && forall i :: 0 <= i < |packets| ==> packets[i] != "STOP"
    ensures var front, back := Sweep(c.pending, ParseAll(packets), clocks), Meanwhile(c, packets, clocks, sends);
      var after := AfterReply(c, packets, clocks, sends);
      && after.pending == front.0 + back.0 && after.missed == c.missed + |front.1| + |back.1|
  {
    var segments, arriving := ParseAll(packets), Arriving(c.counter, sends);
    ReplyIsSweep(c, packets, clocks, sends);
    ArrivalsFollow(c.pending, [], segments, clocks, arriving);
    assert c.pending + [] == c.pending;
    var front, back := Sweep(c.pending, segments, clocks), Meanwhile(c, packets, clocks, sends);
    SameSize(SweepArriving(c.pending, segments, clocks, arriving).1, front.1 + back.1);
  }

  // A whole reply, read at non-decreasing times, leaves of what was pending what a single list of all the ids would,
  // read when the last packet is. It reports missed at least what that list would, and the same number exactly when
  // no pending message is acknowledged too late. What is sent meanwhile comes behind.
  lemma ReplyRoundTrip(c: ClientState, ids: seq<Word64>, times: seq<int>, sends: seq<seq<Draft>>)
    requires c.toCount.None? && ids != []
    requires |times| == |Replies(ids)| == |sends| && InTimeOrder(times)
    ensures |times| > 0 && Concat(ParseAll(Replies(ids))) == ids
    ensures var after := AfterReply(c, Replies(ids), Readings(times), sends);
      var meanwhile := Meanwhile(c, Replies(ids), Readings(times), sends);
      var last := times[|times| - 1];
      var least := c.missed + |Missed(c.pending, ids, Fixed(last))| + |meanwhile.1|;
      && after.pending == Kept(c.pending, ids, Fixed(last), true) + meanwhile.0
      && after.missed >= least
      && (after.missed == least
          <==> forall i :: 0 <= i < |c.pending| ==> !AckedTooLate(c.pending[i], ParseAll(Replies(ids)), times))
  {
    RepliesRead(ids);
    var segments := ParseAll(Replies(ids));
    ReplyInTwo(c, Replies(ids), Readings(times), sends);
    SegmentsKeepTheSame(c.pending, segments, times);
    SegmentsResendMore(c.pending, segments, times);
  }

  lemma RepliesRead(ids: seq<Word64>)
    requires ids != []
    ensures Replies(ids) != [] && Concat(ParseAll(Replies(ids))) == ids
    ensures forall i :: 0 <= i < |Replies(ids)| ==> Replies(ids)[i] != "STOP"
  {
    WordsFit(ids, MAX_SEGMENT_SIZE);
    AckRoundTripAsShipped(ids);
    SegmentsStartWithDigit(ids, MAX_SEGMENT_SIZE);
  }

  // A message sent while the reply is read, that the reply does not name and no reading finds expired, is neither
  // dropped nor resent.
  lemma SentMeanwhileStays(c: ClientState, ids: seq<Word64>, clocks: seq<Clock>, sends: seq<seq<Draft>>)
    requires ids != [] && |clocks| == |Replies(ids)| == |sends|
    requires forall m :: m in Concat(Arriving(c.counter, sends)) ==> Untouched(m, ParseAll(Replies(ids)), clocks)
    ensures Meanwhile(c, Replies(ids), clocks, sends) == (Concat(Arriving(c.counter, sends)), [])
  {
    var segments, arriving := ParseAll(Replies(ids)), Arriving(c.counter, sends);
    var behind := Behind(c.pending, segments, clocks);
    assert [] + Concat(arriving) == Concat(arriving);
    forall m | m in Concat(arriving)
      ensures Untouched(m, segments, behind)
    {
      UntouchedBehind(m, c.pending, segments, clocks);
    }
    ArrivalsStay([], segments, behind, arriving);
  }

  // The same for a clock that is read anew for every message: the reply is worth one list of all the ids in which
  // every message is read at one of the readings the clocks gave, and beyond what that list resends only
  // acknowledged messages are resent.
  lemma ReplyAtAnyClock(c: ClientState, ids: seq<Word64>, clocks: seq<Clock>, sends: seq<seq<Draft>>)
    returns (clock: Clock)
    requires c.toCount.None? && ids != [] && |clocks| == |Replies(ids)| == |sends|
    ensures ReadsAny(|c.pending|, clock, clocks, |c.pending|)
    ensures var after := AfterReply(c, Replies(ids), clocks, sends);
      var meanwhile := Meanwhile(c, Replies(ids), clocks, sends);
      var resent := Sweep(c.pending, ParseAll(Replies(ids)), clocks).1;
      && after.pending == Kept(c.pending, ids, clock, true) + meanwhile.0
      && after.missed == c.missed + |resent| + |meanwhile.1|
      && OneResends(c.pending, ids, clock, resent)
  {
    RepliesRead(ids);
    ReplyInTwo(c, Replies(ids), clocks, sends);
    clock := SegmentsAreOne(c.pending, ParseAll(Replies(ids)), clocks);
  }

  // ----- When a reply has more than one packet -----

  // Exactly when the printed ids do not fit one.
  lemma SeveralPackets(ids: seq<Word64>)
    requires ids != []
    ensures |Replies(ids)| > 1 <==> |Join(Printed(ids), '|')| > 1024
  {
    var tokens := Printed(ids);
    var groups := Pack([], tokens, MAX_SEGMENT_SIZE);
    WordsFit(ids, MAX_SEGMENT_SIZE);
    AckSegmentsAreTexts(ids, MAX_SEGMENT_SIZE);
    PackKeepsTokens([], tokens, MAX_SEGMENT_SIZE);
    PackFits([], tokens, MAX_SEGMENT_SIZE);
    assert [] + tokens == tokens;
    if Fits(tokens, MAX_SEGMENT_SIZE) {
      assert Concat([tokens]) == tokens + Concat([]) == tokens;
      GreedyIsOptimal(tokens, [tokens], MAX_SEGMENT_SIZE);
    }
    ConcatOfOne(groups);
  }

  // The packets are the printed ids in groups joined by bars: at most 1024 characters each, every one but the last
  // without room for the next id.
  lemma ReplyPackets(ids: seq<Word64>) returns (groups: seq<seq<string>>)
    requires ids != []
    ensures Concat(groups) == Printed(ids) && Replies(ids) == Texts(groups, '|')
    ensures AllFit(groups, 1024) && Tight(groups, 1024)
    ensures forall i :: 0 <= i < |groups| ==> groups[i] != []
  {
    var tokens := Printed(ids);
    groups := Pack([], tokens, MAX_SEGMENT_SIZE);
    WordsFit(ids, MAX_SEGMENT_SIZE);
    AckSegmentsAreTexts(ids, MAX_SEGMENT_SIZE);
    PackedGroups(tokens, MAX_SEGMENT_SIZE);
  }

  // As few packets as any groups of at most 1024 characters give.
  lemma FewestPackets(ids: seq<Word64>, other: seq<seq<string>>)
    requires ids != [] && Concat(other) == Printed(ids) && AllFit(other, 1024)
    ensures |Replies(ids)| <= |other|
  {
    WordsFit(ids, MAX_SEGMENT_SIZE);
    AckSegmentsAreTexts(ids, MAX_SEGMENT_SIZE);
    GreedyIsOptimal(Printed(ids), other, 1024);
  }

  lemma ConcatOfOne<T>(groups: seq<seq<T>>)
    ensures |groups| == 1 ==> Concat(groups) == groups[0]
  {
    assert Concat(groups[|groups|..]) == [];
  }

  // Some message, with some readings of the packets, is acknowledged too late.
  ghost predicate MayBeLate(segments: seq<seq<Word64>>) {
    exists m, times :: |times| == |segments| && InTimeOrder(times) && AckedTooLate(m, segments, times)
  }

  // Whatever is pending and whenever the packets are read, no message is acknowledged too late: exactly when the
  // first packet names every id.
  lemma NeverTooLate(segments: seq<seq<Word64>>)
    requires segments != []
    ensures !MayBeLate(segments) <==> forall id :: id in Concat(segments) ==> id in segments[0]
  {
    if id :| id in Concat(segments) && id !in segments[0] {
      var m := Msg(id, None, 0);
      DefaultTimeout(m, 3_000_000);
      AllAtOnce([], segments, 3_000_000);
      assert AckedTooLate(m, segments, Always(3_000_000, |segments|));
    }
    if MayBeLate(segments) {
      var m, times :| |times| == |segments| && InTimeOrder(times) && AckedTooLate(m, segments, times);
      assert m.id in segments[0] + Concat(segments[1..]);
    }
  }

  // For a server's reply to distinct ids: exactly when all of them fit one packet.
  lemma ReplyNeverTooLate(ids: seq<Word64>)
    requires ids != [] && Distinct(ids)
    ensures !MayBeLate(ParseAll(Replies(ids))) <==> |Join(Printed(ids), '|')| <= 1024
  {
    AckRoundTripAsShipped(ids);
    SeveralPackets(ids);
    var segments := ParseAll(Replies(ids));
    NeverTooLate(segments);
    var first, later := segments[0], Concat(segments[1..]);
    if |segments| > 1 {
      LaterNamesSomething(ids);
      HeadOfTwo(first, later, ids);
    } else {
      assert segments[1..] == [] && first + [] == first;
    }
  }

  lemma HeadOfTwo<T>(a: seq<T>, b: seq<T>, whole: seq<T>)
    requires a + b == whole && b != [] && Distinct(whole)
    ensures b[0] in whole && b[0] !in a
  {
    assert whole[|a|] == b[0] && forall i :: 0 <= i < |a| ==> whole[i] == a[i];
  }

  lemma LaterNamesSomething(ids: seq<Word64>)
    requires |Replies(ids)| > 1 && ids != []
    ensures Concat(ParseAll(Replies(ids))[1..]) != []
  {
    var segments := ParseAll(Replies(ids));
    WordsFit(ids, MAX_SEGMENT_SIZE);
    AckRoundTripAsShipped(ids);
    SegmentsStartWithDigit(ids, MAX_SEGMENT_SIZE);
    NamesSomething(Replies(ids)[1]);
    assert Concat(segments[1..]) == segments[1] + Concat(segments[1..][1..]);
  }

  lemma NamesSomething(packet: string)
    requires packet != "" && IsDigit(packet[0])
    ensures ParseIds(packet) != []
  {
    assert Tokens(packet, BAR) != [];
  }

  lemma {:induction false} JoinLength(parts: seq<string>, sep: char)
    requires ProperTokens(parts, sep)
    ensures |Join(parts, sep)| >= 2 * |parts| - 1
  {
    if |parts| > 1 {
      JoinLength(parts[1..], sep);
    }
  }
}
