/** Replies within whole runs, and a run in which a message is resent although the reply being read names it. */
module ReplyRuns {
  import opened Words
  import opened Sequences
  import opened Messages
  import opened AckDiff
  import opened SegmentedAcks
  import opened WireIds
  import opened Endpoints
  import opened AckReplies
  import opened Protocol

  // ----- Reading a reply, as steps of a run -----

  function Sending(drafts: seq<Draft>): seq<Step> {
    if drafts == [] then [] else [Send(drafts[0].content, drafts[0].timestamp, true)] + Sending(drafts[1..])
  }

  // Take packet `k`, count what it missed, send what is sent meanwhile.
  function ReadingOne(k: nat, clock: Clock, drafts: seq<Draft>): seq<Step> {
    [ResponderTakes(k, clock)] + [CountMissed] + Sending(drafts)
  }

  function Reading(k: nat, clocks: seq<Clock>, sends: seq<seq<Draft>>): seq<Step>
    requires |clocks| == |sends|
    decreases |clocks|
  {
    if clocks == [] then [] else ReadingOne(k, clocks[0], sends[0]) + Reading(k + 1, clocks[1..], sends[1..])
  }

  // The responder is free to read these packets, which start at the k-th.
  ghost predicate Ready(s: System, k: nat, packets: seq<string>) {
    && s.client.listening && s.client.toCount.None?
    && k + |packets| <= |s.toClient| && s.toClient[k..k + |packets|] == packets
    && forall i :: 0 <= i < |packets| ==> packets[i] != "STOP"
  }

  lemma ReadyNext(s: System, t: System, k: nat, packets: seq<string>)
    requires Ready(s, k, packets) && packets != []
    requires t.client.listening && t.client.toCount.None? && t.toClient == s.toClient
    ensures s.toClient[k] == packets[0] && Ready(t, k + 1, packets[1..])
  {
    assert s.toClient[k] == s.toClient[k..k + |packets|][0];
    assert s.toClient[k + 1..k + |packets|] == s.toClient[k..k + |packets|][1..];
  }

  lemma {:induction false} SendingSends(steps: seq<Step>, drafts: seq<Draft>)
    ensures var s, t := Reached(steps), Reached(steps + Sending(drafts));
      t.client == AfterSends(s.client, drafts) && t.toClient == s.toClient
    decreases |drafts|
  {
    if drafts == [] {
      assert steps + [] == steps;
    } else {
      var first := Send(drafts[0].content, drafts[0].timestamp, true);
      ReachedStep(steps, first);
      SendingSends(steps + [first], drafts[1..]);
      Associate(steps, [first], Sending(drafts[1..]));
    }
  }

  lemma Associate<T>(a: seq<T>, b: seq<T>, c: seq<T>)
    ensures a + (b + c) == a + b + c
  {
  }

  lemma TakingCounts(steps: seq<Step>, k: nat, clock: Clock)
    requires var s := Reached(steps);
      s.client.listening && s.client.toCount.None? && k < |s.toClient| && s.toClient[k] != "STOP"
    ensures var s, t := Reached(steps), Reached(steps + [ResponderTakes(k, clock)] + [CountMissed]);
      t.client == AfterCount(AfterAck(s.client, s.toClient[k], clock)) && t.toClient == s.toClient
  {
    ReachedStep(steps, ResponderTakes(k, clock));
    ReachedStep(steps + [ResponderTakes(k, clock)], CountMissed);
  }

  lemma ReadOne(steps: seq<Step>, k: nat, packets: seq<string>, clock: Clock, drafts: seq<Draft>)
    requires packets != [] && Ready(Reached(steps), k, packets)
    ensures var s, t := Reached(steps), Reached(steps + ReadingOne(k, clock, drafts));
      && t.client == AfterSends(AfterCount(AfterAck(s.client, packets[0], clock)), drafts)
      && t.toClient == s.toClient && Ready(t, k + 1, packets[1..])
  {
    var s := Reached(steps);
    ReadyNext(s, s, k, packets);
    TakingCounts(steps, k, clock);
    SendingSends(steps + [ResponderTakes(k, clock)] + [CountMissed], drafts);
    SendsAppend(AfterCount(AfterAck(s.client, packets[0], clock)), drafts);
    Associate(steps, [ResponderTakes(k, clock)], [CountMissed]);
    Associate(steps, [ResponderTakes(k, clock)] + [CountMissed], Sending(drafts));
    ReadyNext(s, Reached(steps + ReadingOne(k, clock, drafts)), k, packets);
  }

  // The steps do to the client what the reply's packets do one after the other.
  lemma {:induction false} RunReadsReply(steps: seq<Step>, k: nat, packets: seq<string>, clocks: seq<Clock>,
                                         sends: seq<seq<Draft>>)
    requires |clocks| == |sends| == |packets| && Ready(Reached(steps), k, packets)
    ensures var s, t := Reached(steps), Reached(steps + Reading(k, clocks, sends));
      t.client == AfterReply(s.client, packets, clocks, sends) && t.toClient == s.toClient
    decreases |clocks|
  {
    if clocks == [] {
      assert steps + [] == steps;
    } else {
      var one := ReadingOne(k, clocks[0], sends[0]);
      ReadOne(steps, k, packets, clocks[0], sends[0]);
      RunReadsReply(steps + one, k + 1, packets[1..], clocks[1..], sends[1..]);
      Associate(steps, one, Reading(k + 1, clocks[1..], sends[1..]));
    }
  }

  // ----- A client that sends much before it hears anything -----

  function Filling(n: nat): seq<Step> {
    if n == 0 then [] else Filling(n - 1) + [Send("x", 0, true)]
  }

  function Pending(n: nat): (s: seq<Element>)
    requires n < TWO_64
    ensures |s| == n && forall i :: 0 <= i < n ==> s[i] == Msg(i + 1, Some("x"), 0)
  {
    if n == 0 then [] else Pending(n - 1) + [Msg(n, Some("x"), 0)]
  }

  function UpTo(n: nat): (ids: seq<Word64>)
    requires n < TWO_64
    ensures |ids| == n && forall i :: 0 <= i < n ==> ids[i] == i + 1
  {
    if n == 0 then [] else UpTo(n - 1) + [n]
  }

  // n messages are out, and the server has taken the first k of them.
  ghost predicate Filled(s: System, n: nat, k: nat)
    requires k <= n < TWO_64
  {
    && s.client == ClientState(n, Pending(n), 0, None, true) && s.server == ServerState(UpTo(k), true)
    && s.toServer == D.MarshalAll(Pending(n)) && s.toClient == []
  }

  lemma {:induction false} AfterFilling(n: nat)
    requires n < TWO_64
    ensures Filled(Reached(Filling(n)), n, 0)
  {
    if n == 0 {
      assert D.MarshalAll([]) == [];
    } else {
      AfterFilling(n - 1);
      ReachedStep(Filling(n - 1), Send("x", 0, true));
      FillOne(Reached(Filling(n - 1)), n);
    }
  }

  lemma FillOne(s: System, n: nat)
    requires 1 <= n < TWO_64 && Filled(s, n - 1, 0)
    ensures Filled(Next(s, Send("x", 0, true)), n, 0)
  {
    D.MarshalAppend(Pending(n - 1), Msg(n, Some("x"), 0));
  }

  // The server takes the first `k` of the n messages in order.
  function Taking(n: nat, k: nat): seq<Step> {
    if k == 0 then Filling(n) else Taking(n, k - 1) + [ServerTakes(k - 1)]
  }

  lemma {:induction false} AfterTaking(n: nat, k: nat)
    requires k <= n < TWO_64
    ensures Filled(Reached(Taking(n, k)), n, k)
  {
    if k == 0 {
      AfterFilling(n);
    } else {
      AfterTaking(n, k - 1);
      ReachedStep(Taking(n, k - 1), ServerTakes(k - 1));
      TakeOne(Reached(Taking(n, k - 1)), n, k);
    }
  }

  lemma TakeOne(s: System, n: nat, k: nat)
    requires 1 <= k <= n < TWO_64 && Filled(s, n, k - 1)
    ensures Filled(Next(s, ServerTakes(k - 1)), n, k)
  {
    MarshalledIsData(Pending(n)[k - 1]);
    MessageOnTheWire(Pending(n)[k - 1]);
  }

  // Then a heartbeat makes it reply.
  function Replying(n: nat): seq<Step> {
    Taking(n, n) + [Control("HB")] + [ServerTakes(n)]
  }

  lemma AfterReplying(n: nat)
    requires n < TWO_64
    ensures var s := Reached(Replying(n));
      s.client == ClientState(n, Pending(n), 0, None, true) && s.toClient == Replies(UpTo(n))
  {
    AfterTaking(n, n);
    var steps, beat := Taking(n, n), Control("HB");
    ReachedStep(steps, beat);
    ReachedStep(steps + [beat], ServerTakes(n));
    ReplyOne(Reached(steps), n);
  }

  lemma ReplyOne(s: System, n: nat)
    requires n < TWO_64 && Filled(s, n, n)
    ensures var t := Next(Next(s, Control("HB")), ServerTakes(n));
      t.client == s.client && t.toClient == Replies(UpTo(n))
  {
    var beaten := Next(s, Control("HB"));
    HeartbeatIsNoData();
    assert beaten == s.(toServer := s.toServer + ["HB"]);
    assert beaten.toServer[n] == "HB";
    assert [] + Replies(UpTo(n)) == Replies(UpTo(n));
  }

  lemma HeartbeatIsNoData()
    ensures Dispatch("HB") == Heartbeat
  {
    assert "HB" <= "HB" && !("STOP" <= "HB") && !("START" <= "HB");
  }

  // ----- What reading the reply late does -----

  const LATE := 3_000_000

  lemma {:induction false} AllNamed(s: seq<Element>, acks: seq<Word64>, clock: Clock)
    requires forall m :: m in s ==> m.id in acks
    ensures Kept(s, acks, clock, true) == [] && Missed(s, acks, clock) == []
  {
    if s != [] {
      AllNamed(s[..|s| - 1], acks, clock);
    }
  }

  lemma PendingNamed(n: nat)
    requires n < TWO_64
    ensures forall m :: m in Pending(n) ==> m.id in UpTo(n)
  {
    forall m | m in Pending(n)
      ensures m.id in UpTo(n)
    {
      assert UpTo(n)[m.id - 1] == m.id;
    }
  }

  // With 601 messages or more the reply has several packets. One list of all the ids, however late, would miss
  // nothing. Reading the packets 3 s after the messages were stamped, the client resends messages that the reply
  // acknowledges, and counts them as missed.
  lemma ResentThoughAcknowledged(n: nat)
    requires 601 <= n < TWO_64
    ensures var s, t := Reached(Replying(n)), Reached(ReadingLate(n));
      && s.toClient == Replies(UpTo(n)) && |s.toClient| > 1
      && Kept(s.client.pending, UpTo(n), Fixed(LATE), true) == []
      && Missed(s.client.pending, UpTo(n), Fixed(LATE)) == []
      && s.client.missed == 0 < t.client.missed
  {
    AfterReplying(n);
    PendingNamed(n);
    AllNamed(Pending(n), UpTo(n), Fixed(LATE));
    SomeLate(n);
    LateRun(n);
  }

  lemma LateRun(n: nat)
    requires 601 <= n < TWO_64
    ensures Reached(ReadingLate(n)).client.missed > 0
  {
    var s := Reached(Replying(n));
    var packets := Replies(UpTo(n));
    AfterReplying(n);
    RepliesRead(UpTo(n));
    assert s.toClient[0..|packets|] == packets;
    RunReadsReply(Replying(n), 0, packets, Readings(Always(LATE, |packets|)), Quiet(|packets|));
    LateReading(s.client, n, Quiet(|packets|));
  }

  function Quiet(n: nat): (r: seq<seq<Draft>>)
    ensures |r| == n
  {
    seq(n, i => [])
  }

  // The packets are read at once, and nothing is sent in between.
  function ReadingLate(n: nat): seq<Step>
    requires n < TWO_64
  {
    var count := |Replies(UpTo(n))|;
    Replying(n) + Reading(0, Readings(Always(LATE, count)), Quiet(count))
  }

  lemma LateReading(c: ClientState, n: nat, sends: seq<seq<Draft>>)
    requires 601 <= n < TWO_64 && c.toCount.None? && c.pending == Pending(n) && |sends| == |Replies(UpTo(n))|
    ensures |Replies(UpTo(n))| > 1
    ensures AfterReply(c, Replies(UpTo(n)), Readings(Always(LATE, |sends|)), sends).missed > c.missed
  {
    SomeLate(n);
    ReplyRoundTrip(c, UpTo(n), Always(LATE, |sends|), sends);
  }

  lemma SomeLate(n: nat)
    requires 601 <= n < TWO_64
    ensures var packets := Replies(UpTo(n));
      && |packets| > 1
      && exists i :: 0 <= i < n && AckedTooLate(Pending(n)[i], ParseAll(packets), Always(LATE, |packets|))
  {
    var ids := UpTo(n);
    RepliesRead(ids);
    PrintedIsProper(ids);
    JoinLength(Printed(ids), BAR);
    SeveralPackets(ids);
    LaterNamesSomething(ids);
    var segments := ParseAll(Replies(ids));
    HeadOfTwo(segments[0], Concat(segments[1..]), ids);
    AllAtOnce([], segments, LATE);
    var m := Pending(n)[Concat(segments[1..])[0] - 1];
    DefaultTimeout(m, LATE);
    assert AckedTooLate(m, segments, Always(LATE, |segments|));
  }
}
