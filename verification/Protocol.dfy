/**
 Whole runs of client and server over a network that drops, repeats and reorders packets. Every packet ever
 handed to a socket stays in a log, and a delivery takes any entry of the log, any number of times or never.
 A step carries no thread identity, so runs with any number of sender threads are covered.
 */
module Protocol {
  import opened Words
  import opened Sequences
  import opened CText
  import opened Messages
  import opened DynamicArrays
  import opened AckDiff
  import opened WireIds
  import opened Endpoints
  import D = DiffFromArrays

  // The fields from `sends` on record what happened; no step's outcome depends on them. `handed` holds the ids whose
  // first send succeeded, `received` those of the messages the server has taken.
  datatype System = System(
    client: ClientState,
    server: ServerState,
    toServer: seq<CString>,
    toClient: seq<string>,
    sends: nat,
    handed: set<Word64>,
    acked: set<Word64>,
    resent: seq<Word64>,
    received: set<Word64>)

  datatype Step =
    | Send(content: CString, timestamp: Int64, succeeds: bool)
    | Control(text: CString)
    | ServerTakes(packet: nat)
    | ServerQuits
    | ResponderTakes(reply: nat, clock: Clock)
    | CountMissed

  const INITIAL := System(ClientState(0, [], 0, None, true), ServerState([], true), [], [], 0, {}, {}, [], {})

  function IdSet(s: seq<Element>): set<Word64> {
    if s == [] then {} else IdSet(s[..|s| - 1]) + {s[|s| - 1].id}
  }

  function Elements(s: seq<Word64>): set<Word64> {
    if s == [] then {} else Elements(s[..|s| - 1]) + {s[|s| - 1]}
  }

  // A step that is not enabled leaves the system as it is.
  ghost function Next(s: System, step: Step): System
    requires D.AllHaveContent(s.client.pending)
  {
    match step
    case Send(content, timestamp, succeeds) =>
      var packet := MarshalMessage(NewMessage(s.client, content, timestamp));
      s.(client := AfterSend(s.client, content, timestamp), sends := s.sends + 1,
         toServer := if succeeds then s.toServer + [packet] else s.toServer,
         handed := if succeeds then s.handed + {NextId(s.client.counter)} else s.handed)
    case Control(text) =>
      if Dispatch(text).Data? then s else s.(toServer := s.toServer + [text])
    case ServerTakes(k) =>
      if k >= |s.toServer| || !s.server.running then s
      else
        var p := s.toServer[k];
        s.(server := AfterPacket(s.server, p), toClient := s.toClient + PacketReplies(s.server, p),
           received := if Dispatch(p).Data? then s.received + {UnmarshalMessage(p).id} else s.received)
    case ServerQuits =>
      if s.server.running then s else s.(toClient := s.toClient + ["STOP"])
    case ResponderTakes(k, clock) =>
      if k >= |s.toClient| || !s.client.listening || s.client.toCount.Some? then s
      else
        var p := s.toClient[k];
        if p == "STOP" then s.(client := AfterAck(s.client, p, clock))
        else
          s.(client := AfterAck(s.client, p, clock),
             toServer := s.toServer + AckResends(s.client, p, clock),
             acked := s.acked + IdSet(s.client.pending) * Elements(ParseIds(p)),
             resent := s.resent + Ids(Missed(s.client.pending, ParseIds(p), clock)))
    case CountMissed =>
      if s.client.toCount.None? then s else s.(client := AfterCount(s.client))
  }

  // ----- The invariant -----

  predicate Carries(packet: CString, id: Word64) {
    Dispatch(packet).Data? && UnmarshalMessage(packet).id == id
  }

  // How often a message with this id has been handed to the network.
  function Transmissions(log: seq<CString>, id: Word64): nat {
    if log == [] then 0
    else Transmissions(log[..|log| - 1], id) + if Carries(log[|log| - 1], id) then 1 else 0
  }

  ghost predicate ClientOrdered(s: System) {
    && s.client.counter == s.sends
    && D.AllHaveContent(s.client.pending)
    && StrictlyIncreasing(s.client.pending)
    && forall i :: 0 <= i < |s.client.pending| ==> 1 <= s.client.pending[i].id <= s.client.counter
  }

  // Every issued id is pending, acknowledged or resent, and only one of the three.
  ghost predicate Partitioned(s: System) {
    && ThreeWays(s.sends, IdSet(s.client.pending), s.acked, Elements(s.resent))
    && Distinct(s.resent)
    && s.sends == |s.client.pending| + |s.acked| + |s.resent|
  }

  ghost predicate ThreeWays(sends: nat, pending: set<Word64>, acked: set<Word64>, resent: set<Word64>) {
    && (forall id: Word64 :: 1 <= id <= sends <==> id in pending || id in acked || id in resent)
    && pending !! acked && pending !! resent && acked !! resent
  }

  ghost predicate Counted(s: System) {
    |s.resent| == s.client.missed + if s.client.toCount.Some? then s.client.toCount.value else 0
  }

  ghost predicate ServerSound(s: System) {
    && (forall id :: id in s.server.ids ==> id in s.received)
    && (forall id :: id in s.received ==> id in s.handed || id in s.resent)
    && (forall p, id :: p in s.toClient && p != "STOP" && id in ParseIds(p) ==> id == 0 || id in s.received)
    && s.acked <= s.received
  }

  // An id has been handed to the network once by its own send, if that succeeded, once by its resend, if there was
  // one, and not otherwise.
  ghost predicate TrafficExact(s: System) {
    && (forall id: Word64 :: Transmissions(s.toServer, id) == Handings(s, id))
    && (forall id :: id in s.handed ==> 1 <= id <= s.sends)
  }

  function Handings(s: System, id: Word64): nat {
    (if id in s.handed then 1 else 0) + (if id in s.resent then 1 else 0)
  }

  ghost predicate Inv(s: System) {
    ClientOrdered(s) && Partitioned(s) && Counted(s) && ServerSound(s) && TrafficExact(s)
  }

  // ----- Runs -----

  function Sends(steps: seq<Step>): nat {
    if steps == [] then 0 else Sends(steps[..|steps| - 1]) + if steps[|steps| - 1].Send? then 1 else 0
  }

  ghost function Reached(steps: seq<Step>): (s: System)
    ensures D.AllHaveContent(s.client.pending) && s.sends == Sends(steps)
  {
    if steps == [] then INITIAL
    else
      var s := Reached(steps[..|steps| - 1]);
      NextKeepsContent(s, steps[|steps| - 1]);
      Next(s, steps[|steps| - 1])
  }

  lemma ReachedStep(steps: seq<Step>, step: Step)
    ensures Reached(steps + [step]) == Next(Reached(steps), step)
  {
    assert (steps + [step])[..|steps|] == steps;
  }

  lemma NextKeepsContent(s: System, step: Step)
    requires D.AllHaveContent(s.client.pending)
    ensures D.AllHaveContent(Next(s, step).client.pending)
    ensures Next(s, step).sends == s.sends + if step.Send? then 1 else 0
  {
    match step
    case ResponderTakes(k, clock) =>
      if k < |s.toClient| {
        D.SweepKeepsContent(s.client.pending, ParseIds(s.toClient[k]), clock, true);
      }
    case _ =>
  }

  // ----- Sets of ids -----

  lemma IdSetAppend(s: seq<Element>, m: Element)
    ensures IdSet(s + [m]) == IdSet(s) + {m.id}
  {
    assert (s + [m])[..|s|] == s;
  }

  lemma {:induction false} IdSetMembers(s: seq<Element>)
    ensures forall i :: 0 <= i < |s| ==> s[i].id in IdSet(s)
    ensures forall id :: id in IdSet(s) ==> exists i :: 0 <= i < |s| && s[i].id == id
  {
    if s != [] {
      var p := s[..|s| - 1];
      IdSetMembers(p);
      assert forall i :: 0 <= i < |p| ==> p[i] == s[i];
      forall id | id in IdSet(p)
        ensures exists i :: 0 <= i < |s| && s[i].id == id
      {
        var i :| 0 <= i < |p| && p[i].id == id;
        assert s[i].id == id;
      }
      assert s[|s| - 1].id in IdSet(s);
    }
  }

  lemma {:induction false} ElementsMembers(s: seq<Word64>)
    ensures forall x :: x in Elements(s) <==> x in s
  {
    if s != [] {
      ElementsMembers(s[..|s| - 1]);
      assert s == s[..|s| - 1] + [s[|s| - 1]];
    }
  }

  lemma ElementsAppend(a: seq<Word64>, b: seq<Word64>)
    ensures Elements(a + b) == Elements(a) + Elements(b)
  {
    ElementsMembers(a);
    ElementsMembers(b);
    ElementsMembers(a + b);
  }

  // Every pending id is in exactly one of three hands: kept, missed, acknowledged.
  ghost predicate Dealt(s: seq<Element>, kept: seq<Element>, missed: seq<Word64>, acks: set<Word64>) {
    && StrictlyIncreasing(kept) && Distinct(missed)
    && Hands(IdSet(s), IdSet(kept), Elements(missed), acks)
    && |s| == |kept| + |missed| + |IdSet(s) * acks|
  }

  ghost predicate Above(m: Element, s: seq<Element>) {
    forall id :: id in IdSet(s) ==> id < m.id
  }

  // The three hands as bare sets.
  ghost predicate Hands(s: set<Word64>, kept: set<Word64>, missed: set<Word64>, acks: set<Word64>) {
    s == kept + missed + s * acks && kept !! missed && kept !! acks && missed !! acks
  }

  lemma DealOne(s: set<Word64>, kept: set<Word64>, missed: set<Word64>, acks: set<Word64>, id: Word64)
    requires Hands(s, kept, missed, acks) && id !in s
    ensures id in acks ==> Hands(s + {id}, kept, missed, acks) && |(s + {id}) * acks| == |s * acks| + 1
    ensures id !in acks ==> Hands(s + {id}, kept + {id}, missed, acks) && Hands(s + {id}, kept, missed + {id}, acks)
    ensures id !in acks ==> |(s + {id}) * acks| == |s * acks|
  {
    if id in acks {
      assert (s + {id}) * acks == s * acks + {id};
    } else {
      assert (s + {id}) * acks == s * acks;
    }
  }

  // Adding a message above all others keeps the order; putting its id in front keeps the ids distinct.
  lemma ExtendOrdered(s: seq<Element>, m: Element)
    requires StrictlyIncreasing(s) && Above(m, s)
    ensures StrictlyIncreasing(s + [m])
  {
    IdSetMembers(s);
  }

  lemma PrependDistinct(s: seq<Word64>, id: Word64)
    requires Distinct(s) && id !in Elements(s)
    ensures Distinct([id] + s) && Elements([id] + s) == Elements(s) + {id}
  {
    ElementsMembers(s);
    ElementsMembers([id]);
    ElementsAppend([id], s);
  }

  lemma DealtAcked(s: seq<Element>, m: Element, kept: seq<Element>, missed: seq<Word64>, acks: set<Word64>)
    requires Dealt(s, kept, missed, acks) && m.id !in IdSet(s) && m.id in acks
    ensures Dealt(s + [m], kept, missed, acks)
  {
    DealOne(IdSet(s), IdSet(kept), Elements(missed), acks, m.id);
    IdSetAppend(s, m);
  }

  lemma DealtKept(s: seq<Element>, m: Element, kept: seq<Element>, missed: seq<Word64>, acks: set<Word64>)
    requires Dealt(s, kept, missed, acks) && Above(m, s) && m.id !in acks
    ensures Dealt(s + [m], kept + [m], missed, acks)
  {
    DealOne(IdSet(s), IdSet(kept), Elements(missed), acks, m.id);
    IdSetAppend(s, m);
    IdSetAppend(kept, m);
    ExtendOrdered(kept, m);
  }

  lemma DealtMissed(s: seq<Element>, m: Element, kept: seq<Element>, missed: seq<Word64>, acks: set<Word64>)
    requires Dealt(s, kept, missed, acks) && m.id !in IdSet(s) && m.id !in acks
    ensures Dealt(s + [m], kept, [m.id] + missed, acks)
  {
    DealOne(IdSet(s), IdSet(kept), Elements(missed), acks, m.id);
    IdSetAppend(s, m);
    PrependDistinct(missed, m.id);
  }

  lemma LastIsAbove(s: seq<Element>)
    requires s != [] && StrictlyIncreasing(s)
    ensures var n := |s| - 1;
      StrictlyIncreasing(s[..n]) && Above(s[n], s[..n]) && s[n].id !in IdSet(s[..n]) && s == s[..n] + [s[n]]
  {
    IdSetMembers(s[..|s| - 1]);
  }

  lemma {:induction false} SweepPartition(s: seq<Element>, acks: seq<Word64>, clock: Clock)
    requires StrictlyIncreasing(s)
    ensures Dealt(s, Kept(s, acks, clock, true), Ids(Missed(s, acks, clock)), Elements(acks))
  {
    if s == [] {
      assert Ids([]) == [];
    } else {
      var n := |s| - 1;
      var p, m := s[..n], s[n];
      LastIsAbove(s);
      SweepPartition(p, acks, clock);
      ElementsMembers(acks);
      var kept, missed := Kept(p, acks, clock, true), Missed(p, acks, clock);
      SweepLast(s, acks, clock);
      if m.id in acks {
        DealtAcked(p, m, kept, Ids(missed), Elements(acks));
      } else if TimedOut(m, clock(n)) {
        IdsAppend([m], missed);
        DealtMissed(p, m, kept, Ids(missed), Elements(acks));
      } else {
        DealtKept(p, m, kept, Ids(missed), Elements(acks));
      }
    }
  }

  // ----- Counting transmissions -----

  lemma {:induction false} TransmissionsAppend(a: seq<CString>, b: seq<CString>, id: Word64)
    ensures Transmissions(a + b, id) == Transmissions(a, id) + Transmissions(b, id)
  {
    if b == [] {
      assert a + b == a;
    } else {
      assert (a + b)[..|a + b| - 1] == a + b[..|b| - 1];
      TransmissionsAppend(a, b[..|b| - 1], id);
    }
  }

  // Handing over distinct messages adds one transmission for each of them.
  lemma {:induction false} TransmissionsOfMessages(s: seq<Element>, id: Word64)
    requires D.AllHaveContent(s) && Distinct(Ids(s))
    ensures Transmissions(D.MarshalAll(s), id) == if id in Ids(s) then 1 else 0
  {
    if s != [] {
      var n := |s| - 1;
      var front := s[..n];
      assert D.MarshalAll(s)[..n] == D.MarshalAll(front);
      assert Ids(s) == Ids(front) + [s[n].id];
      assert Distinct(Ids(front)) by {
        assert forall i :: 0 <= i < n ==> Ids(front)[i] == Ids(s)[i];
      }
      TransmissionsOfMessages(front, id);
      MarshalledIsData(s[n]);
      MessageOnTheWire(s[n]);
      assert Ids(s)[n] == s[n].id;
      assert s[n].id !in Ids(front) by {
        assert forall i :: 0 <= i < n ==> Ids(front)[i] == Ids(s)[i];
      }
    }
  }

  lemma {:induction false} TransmittedIfLogged(log: seq<CString>, k: nat)
    requires k < |log| && Dispatch(log[k]).Data?
    ensures Transmissions(log, UnmarshalMessage(log[k]).id) >= 1
  {
    if k < |log| - 1 {
      TransmittedIfLogged(log[..|log| - 1], k);
    }
  }

  // ----- Every step keeps the invariant -----

  lemma LogOne(log: seq<CString>, packet: CString)
    ensures forall id: Word64 :: Transmissions(log + [packet], id)
                              == Transmissions(log, id) + if Carries(packet, id) then 1 else 0
  {
    assert (log + [packet])[..|log|] == log;
  }

  lemma ThreeWaysSend(sends: nat, pending: set<Word64>, acked: set<Word64>, resent: set<Word64>, id: Word64)
    requires ThreeWays(sends, pending, acked, resent) && id == sends + 1
    ensures ThreeWays(sends + 1, pending + {id}, acked, resent)
    ensures id !in resent && id !in pending
  {
  }

  lemma SendKeepsInv(s: System, content: CString, timestamp: Int64, succeeds: bool)
    requires Inv(s) && s.sends + 1 < TWO_64
    ensures Inv(Next(s, Send(content, timestamp, succeeds)))
  {
    SentKeepsInv(s, Next(s, Send(content, timestamp, succeeds)), NewMessage(s.client, content, timestamp));
  }

  lemma SentKeepsInv(s: System, t: System, m: Message)
    requires Inv(s) && s.sends + 1 < TWO_64 && m.content.Some? && m.id == NextId(s.client.counter)
    requires t.client == s.client.(counter := m.id, pending := s.client.pending + [m])
    requires if t.handed == s.handed then t.toServer == s.toServer
             else t.handed == s.handed + {m.id} && t.toServer == s.toServer + [MarshalMessage(m)]
    requires t.sends == s.sends + 1 && t.resent == s.resent && t.acked == s.acked && t.received == s.received
    requires t.server == s.server && t.toClient == s.toClient
    ensures Inv(t)
  {
    assert ClientOrdered(t) by {
      IdSetMembers(s.client.pending);
      ExtendOrdered(s.client.pending, m);
    }
    ThreeWaysSend(s.sends, IdSet(s.client.pending), s.acked, Elements(s.resent), m.id);
    assert Partitioned(t) by {
      IdSetAppend(s.client.pending, m);
    }
    TrafficSent(s, t, m);
  }

  lemma TrafficSent(s: System, t: System, m: Message)
    requires TrafficExact(s) && ServerSound(s)
    requires m.content.Some? && m.id == s.sends + 1 && m.id !in Elements(s.resent)
    requires if t.handed == s.handed then t.toServer == s.toServer
             else t.handed == s.handed + {m.id} && t.toServer == s.toServer + [MarshalMessage(m)]
    requires t.sends == s.sends + 1 && t.resent == s.resent && t.acked == s.acked && t.received == s.received
    requires t.server == s.server && t.toClient == s.toClient
    ensures TrafficExact(t) && ServerSound(t)
  {
    MarshalledIsData(m);
    MessageOnTheWire(m);
    LogOne(s.toServer, MarshalMessage(m));
    ElementsMembers(s.resent);
  }

  lemma ControlKeepsInv(s: System, text: CString)
    requires Inv(s)
    ensures Inv(Next(s, Control(text)))
  {
    LogOne(s.toServer, text);
  }

  // A server reply names only ids the server holds, or id 0 in a wake-up.
  lemma RepliesName(ids: seq<Word64>)
    ensures forall p, id :: p in Replies(ids) && id in ParseIds(p) ==> id == 0 || id in ids
  {
    WakeupIsZero();
    AckRoundTripAsShipped(ids);
    var segments := AckSegments(ids, MAX_SEGMENT_SIZE);
    forall p, id | p in segments && id in ParseIds(p)
      ensures id in ids
    {
      var i :| 0 <= i < |segments| && segments[i] == p;
      InConcat(ParseAll(segments), i, id);
    }
  }

  lemma {:induction false} InConcat(groups: seq<seq<Word64>>, i: nat, x: Word64)
    requires i < |groups| && x in groups[i]
    ensures x in Concat(groups)
  {
    if i > 0 {
      InConcat(groups[1..], i - 1, x);
    }
  }

  lemma ServerTakesKeepsInv(s: System, k: nat)
    requires Inv(s)
    ensures Inv(Next(s, ServerTakes(k)))
  {
    if k < |s.toServer| && s.server.running {
      var p := s.toServer[k];
      RepliesName(s.server.ids);
      if Dispatch(p).Data? {
        TransmittedIfLogged(s.toServer, k);
      }
    }
  }

  lemma ServerQuitsKeepsInv(s: System)
    requires Inv(s)
    ensures Inv(Next(s, ServerQuits))
  {
  }

  lemma CountMissedKeepsInv(s: System)
    requires Inv(s)
    ensures Inv(Next(s, CountMissed))
  {
  }

  lemma ResponderKeepsInv(s: System, k: nat, clock: Clock)
    requires Inv(s)
    ensures Inv(Next(s, ResponderTakes(k, clock)))
  {
    if k < |s.toClient| && s.client.listening && s.client.toCount.None? && s.toClient[k] != "STOP" {
      SweepKeepsInv(s, k, clock);
    }
  }

  // The new traffic after a sweep: one more transmission for each missed message, none for any other.
  lemma SweepTraffic(log: seq<CString>, missed: seq<Element>)
    requires D.AllHaveContent(missed) && Distinct(Ids(missed))
    ensures forall id: Word64 :: Transmissions(log + D.MarshalAll(missed), id)
                              == Transmissions(log, id) + if id in Ids(missed) then 1 else 0
  {
    forall id: Word64
      ensures Transmissions(log + D.MarshalAll(missed), id)
           == Transmissions(log, id) + if id in Ids(missed) then 1 else 0
    {
      TransmissionsAppend(log, D.MarshalAll(missed), id);
      TransmissionsOfMessages(missed, id);
    }
  }

  lemma ThreeWaysSwept(sends: nat, pending: set<Word64>, acked: set<Word64>, resent: set<Word64>,
                       kept: set<Word64>, missed: set<Word64>, acks: set<Word64>)
    requires ThreeWays(sends, pending, acked, resent) && Hands(pending, kept, missed, acks)
    ensures ThreeWays(sends, kept, acked + pending * acks, resent + missed)
    ensures resent !! missed && |acked + pending * acks| == |acked| + |pending * acks|
  {
  }

  lemma DistinctAppend(a: seq<Word64>, b: seq<Word64>)
    requires Distinct(a) && Distinct(b) && Elements(a) !! Elements(b)
    ensures Distinct(a + b) && Elements(a + b) == Elements(a) + Elements(b)
  {
    ElementsAppend(a, b);
    ElementsMembers(a);
    ElementsMembers(b);
    forall i, j | 0 <= i < j < |a + b|
      ensures (a + b)[i] != (a + b)[j]
    {
      if i < |a| <= j {
        assert a[i] in Elements(a) && b[j - |a|] in Elements(b);
      }
    }
  }

  lemma PartitionSwept(s: System, t: System, acks: set<Word64>, missed: seq<Word64>)
    requires Partitioned(s) && Dealt(s.client.pending, t.client.pending, missed, acks)
    requires t.sends == s.sends && t.resent == s.resent + missed
    requires t.acked == s.acked + IdSet(s.client.pending) * acks
    ensures Partitioned(t)
  {
    ThreeWaysSwept(s.sends, IdSet(s.client.pending), s.acked, Elements(s.resent),
                   IdSet(t.client.pending), Elements(missed), acks);
    DistinctAppend(s.resent, missed);
  }

  lemma TrafficSwept(s: System, t: System, missed: seq<Element>)
    requires D.AllHaveContent(missed) && Distinct(Ids(missed))
    requires TrafficExact(s) && Elements(s.resent) !! Elements(Ids(missed))
    requires forall id :: id in Elements(Ids(missed)) ==> 1 <= id <= s.sends
    requires t.sends == s.sends && t.resent == s.resent + Ids(missed)
    requires t.toServer == s.toServer + D.MarshalAll(missed) && t.handed == s.handed
    ensures TrafficExact(t)
  {
    SweepTraffic(s.toServer, missed);
    ElementsMembers(Ids(missed));
    ElementsMembers(s.resent);
  }

  lemma SweepKeepsInv(s: System, k: nat, clock: Clock)
    requires Inv(s) && k < |s.toClient| && s.client.listening && s.client.toCount.None? && s.toClient[k] != "STOP"
    ensures Inv(Next(s, ResponderTakes(k, clock)))
  {
    var acks := ParseIds(s.toClient[k]);
    assert s.toClient[k] in s.toClient;
    SweptKeepsInv(s, Next(s, ResponderTakes(k, clock)), acks, clock);
  }

  lemma SweptKeepsInv(s: System, t: System, acks: seq<Word64>, clock: Clock)
    requires Inv(s) && s.client.toCount.None?
    requires forall id :: id in acks ==> id == 0 || id in s.received
    requires t.client == s.client.(pending := Kept(s.client.pending, acks, clock, true),
                                   toCount := Some(|Missed(s.client.pending, acks, clock)|))
    requires t.toServer == s.toServer + D.Resends(s.client.pending, acks, clock)
    requires t.acked == s.acked + IdSet(s.client.pending) * Elements(acks)
    requires t.resent == s.resent + Ids(Missed(s.client.pending, acks, clock))
    requires t.sends == s.sends && t.handed == s.handed && t.received == s.received
    requires t.server == s.server && t.toClient == s.toClient
    ensures Inv(t)
  {
    var missed := Missed(s.client.pending, acks, clock);
    D.SweepKeepsContent(s.client.pending, acks, clock, true);
    SweepPartition(s.client.pending, acks, clock);
    PartitionSwept(s, t, Elements(acks), Ids(missed));
    OrderedSwept(s, t, Elements(acks), Ids(missed));
    TrafficSwept(s, t, missed);
    SoundSwept(s, t, acks);
  }

  lemma OrderedSwept(s: System, t: System, acks: set<Word64>, missed: seq<Word64>)
    requires ClientOrdered(s) && Dealt(s.client.pending, t.client.pending, missed, acks)
    requires t.sends == s.sends && t.client.counter == s.client.counter && D.AllHaveContent(t.client.pending)
    ensures ClientOrdered(t)
    ensures forall id :: id in Elements(missed) ==> 1 <= id <= s.sends
  {
    IdSetMembers(s.client.pending);
    IdSetMembers(t.client.pending);
  }

  // Whatever a reply acknowledges, the server has received: a wake-up's id 0 is never pending.
  lemma SoundSwept(s: System, t: System, acks: seq<Word64>)
    requires ServerSound(s) && ClientOrdered(s)
    requires forall id :: id in acks ==> id == 0 || id in s.received
    requires t.server == s.server && t.toClient == s.toClient && t.received == s.received
    requires t.handed == s.handed && s.resent <= t.resent
    requires t.acked == s.acked + IdSet(s.client.pending) * Elements(acks)
    ensures ServerSound(t)
  {
    IdSetMembers(s.client.pending);
    ElementsMembers(acks);
  }

  lemma NextKeepsInv(s: System, step: Step)
    requires Inv(s) && (step.Send? ==> s.sends + 1 < TWO_64)
    ensures Inv(Next(s, step))
  {
    match step
    case Send(content, timestamp, succeeds) => SendKeepsInv(s, content, timestamp, succeeds);
    case Control(text) => ControlKeepsInv(s, text);
    case ServerTakes(k) => ServerTakesKeepsInv(s, k);
    case ServerQuits => ServerQuitsKeepsInv(s);
    case ResponderTakes(k, clock) => ResponderKeepsInv(s, k, clock);
    case CountMissed => CountMissedKeepsInv(s);
  }

  // Every state reached by a run that draws fewer than 2^64 ids.
  lemma {:induction false} EveryRunKeepsInv(steps: seq<Step>)
    requires Sends(steps) < TWO_64
    ensures Inv(Reached(steps))
  {
    if steps != [] {
      EveryRunKeepsInv(steps[..|steps| - 1]);
      NextKeepsInv(Reached(steps[..|steps| - 1]), steps[|steps| - 1]);
    }
  }

  // ----- What a run means to its users -----

  // Once the list is drained and the last result counted, every message sent is accounted for: the server
  // received it, or it is one of the `missed`, resent once each.
  lemma DrainedRun(steps: seq<Step>, id: Word64)
    requires Sends(steps) < TWO_64
    requires Reached(steps).client.pending == [] && Reached(steps).client.toCount.None?
    ensures var s := Reached(steps);
      && s.sends == |s.acked| + s.client.missed
      && s.acked <= s.received
      && (1 <= id <= s.sends <==> id in s.received || id in s.resent)
      && (id !in s.acked && 1 <= id <= s.sends ==> id in s.resent)
      && (id in s.acked ==> Transmissions(s.toServer, id) == 1)
      && Transmissions(s.toServer, id) == (if id in s.handed then 1 else 0) + (if id in s.resent then 1 else 0)
  {
    EveryRunKeepsInv(steps);
    ElementsMembers(Reached(steps).resent);
  }

  // A wake-up acknowledges nothing: every pending message that has not expired stays.
  lemma WakeupAcksNothing(s: System, k: nat, clock: Clock)
    requires Inv(s) && k < |s.toClient| && s.toClient[k] == "WAKEUP"
    requires s.client.listening && s.client.toCount.None?
    ensures Next(s, ResponderTakes(k, clock)).acked == s.acked
  {
    AckedByReply(s, k, clock);
    WakeupIsZero();
    ZeroNeverPending(s);
    assert s.acked + {} == s.acked;
  }

  lemma AckedByReply(s: System, k: nat, clock: Clock)
    requires D.AllHaveContent(s.client.pending) && k < |s.toClient| && s.toClient[k] != "STOP"
    requires s.client.listening && s.client.toCount.None?
    ensures Next(s, ResponderTakes(k, clock)).acked
         == s.acked + IdSet(s.client.pending) * Elements(ParseIds(s.toClient[k]))
  {
  }

  lemma ZeroNeverPending(s: System)
    requires Inv(s)
    ensures IdSet(s.client.pending) * Elements([0]) == {}
  {
    IdSetMembers(s.client.pending);
    ElementsMembers([0]);
    assert 0 !in IdSet(s.client.pending);
  }

  // Any reply, a wake-up included, read when every pending message has expired empties the list that the
  // client's shutdown waits on.
  lemma ExpiredRunDrains(s: System, k: nat, clock: Clock)
    requires Inv(s) && k < |s.toClient| && s.toClient[k] != "STOP"
    requires s.client.listening && s.client.toCount.None?
    requires forall i :: 0 <= i < |s.client.pending| ==> TimedOut(s.client.pending[i], clock(i))
    ensures var t := Next(s, ResponderTakes(k, clock));
      t.client.pending == [] && t.sends == |t.acked| + |t.resent|
  {
    ExpiredDrain(s.client.pending, ParseIds(s.toClient[k]), clock);
    ResponderKeepsInv(s, k, clock);
  }

  // The id generator wraps: after n sends it holds n modulo 2^64.
  lemma {:induction false} CounterAfter(steps: seq<Step>)
    ensures Reached(steps).client.counter == Sends(steps) % 18_446_744_073_709_551_616
    ensures NextId(Reached(steps).client.counter) == DrawnId(Sends(steps))
  {
    if steps != [] {
      var front, last := steps[..|steps| - 1], steps[|steps| - 1];
      CounterAfter(front);
      CounterStep(Reached(front), last);
      ModSucc(Sends(front));
    }
    ModSucc(Sends(steps));
  }

  lemma ModSucc(n: nat)
    ensures (n % TWO_64 + 1) % TWO_64 == (n + 1) % TWO_64
    ensures (n % TWO_64) % TWO_64 == n % TWO_64
  {
    var q, r := n / TWO_64, n % TWO_64;
    assert n + 1 == q * TWO_64 + (r + 1);
    if r + 1 == TWO_64 {
      assert n + 1 == (q + 1) * TWO_64;
    }
  }

  lemma CounterStep(s: System, step: Step)
    requires D.AllHaveContent(s.client.pending)
    ensures Next(s, step).client.counter == (s.client.counter + if step.Send? then 1 else 0) % TWO_64
  {
  }

  function DrawnId(n: nat): Word64 {
    (n + 1) % TWO_64
  }

  // The first n ids drawn are pairwise distinct exactly when n is at most 2^64, and none of them is the id 0
  // that a wake-up names exactly when n is less than that.
  lemma DrawnIdsDistinct(n: nat)
    ensures (forall i, j :: 0 <= i < j < n ==> DrawnId(i) != DrawnId(j)) <==> n <= 18_446_744_073_709_551_616
    ensures (forall i :: 0 <= i < n ==> DrawnId(i) != 0) <==> n < 18_446_744_073_709_551_616
  {
    assert DrawnId(TWO_64 - 1) == 0;
    assert DrawnId(TWO_64) == DrawnId(0);
    if n <= TWO_64 {
      forall i, j | 0 <= i < j < n
        ensures DrawnId(i) != DrawnId(j)
      {
        SmallIds(i);
        SmallIds(j);
      }
      forall i | 0 <= i < n
        ensures i < TWO_64 - 1 ==> DrawnId(i) != 0
      {
        SmallIds(i);
      }
    }
  }

  lemma SmallIds(i: nat)
    requires i < TWO_64
    ensures DrawnId(i) == if i + 1 < TWO_64 then i + 1 else 0
  {
  }
}
