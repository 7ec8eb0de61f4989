/** The client's and the server's atomic steps: as functions on their states, and as methods that refine them. */
module Endpoints {
  import opened Words
  import opened Sequences
  import opened CText
  import opened Messages
  import opened DynamicArrays
  import opened AckDiff
  import opened Radios
  import opened WireIds
  import D = DiffFromArrays

  // ----- Client steps -----

  // `counter` is the id generator, `pending` the shared array, `missed` the reported total, `toCount` the
  // responder's own result between sweeping the array and adding it to the total.
  datatype ClientState = ClientState(
    counter: Word64,
    pending: seq<Element>,
    missed: nat,
    toCount: Option<nat>,
    listening: bool)

  function NextId(counter: Word64): Word64 {
    (counter + 1) % TWO_64
  }

  function NewMessage(c: ClientState, content: CString, timestamp: Int64): Message {
    Msg(NextId(c.counter), Some(content), timestamp)
  }

  // Under one lock: draw an id, append the message.
  function AfterSend(c: ClientState, content: CString, timestamp: Int64): ClientState {
    c.(counter := NextId(c.counter), pending := c.pending + [NewMessage(c, content, timestamp)])
  }

  // The responder's reaction to a packet: "STOP" ends it, anything else is read as a list of ids and swept.
  function AfterAck(c: ClientState, buffer: string, clock: Clock): ClientState {
    if buffer == "STOP" then c.(listening := false)
    else c.(pending := Kept(c.pending, ParseIds(buffer), clock, true),
            toCount := Some(|Missed(c.pending, ParseIds(buffer), clock)|))
  }

  function AckResends(c: ClientState, buffer: string, clock: Clock): seq<CString>
    requires D.AllHaveContent(c.pending)
  {
    if buffer == "STOP" then [] else D.Resends(c.pending, ParseIds(buffer), clock)
  }

  function AfterCount(c: ClientState): ClientState
    requires c.toCount.Some?
  {
    c.(missed := c.missed + c.toCount.value, toCount := None)
  }

  class Client {
    var counter: Word64
    const pending: DynamicArray
    var missed: nat
    var toCount: Option<nat>
    var listening: bool
    const radio: Radio

    ghost predicate Valid()
      reads this, pending, pending.data
    {
      && pending.Valid() && pending.kind.OfMessages? && pending.initial >= 2
      && D.AllHaveContent(pending.Contents())
    }

    ghost function View(): ClientState
      requires Valid()
      reads this, pending, pending.data
    {
      ClientState(counter, pending.Contents(), missed, toCount, listening)
    }

    constructor (capacity: nat)
      requires capacity >= 2
      ensures Valid() && View() == ClientState(0, [], 0, None, true)
      ensures fresh(pending) && fresh(pending.data) && fresh(radio) && radio.sent == []
    {
      counter, missed, toCount, listening := 0, 0, None, true;
      pending := new DynamicArray(capacity, OfMessages);
      radio := new Radio();
    }

    // The locked region of the send loop. The send can fail after the message was appended.
    method Send(content: CString, timestamp: Int64, succeeds: bool)
      requires Valid()
      modifies this, pending, pending.data, radio
      ensures Valid() && (pending.data == old(pending.data) || fresh(pending.data))
      ensures View() == AfterSend(old(View()), content, timestamp)
      ensures var packet := MarshalMessage(NewMessage(old(View()), content, timestamp));
        radio.sent == old(radio.sent) + if succeeds then [packet] else []
    {
      counter := NextId(counter);
      var m: Message := Msg(counter, Some(content), timestamp);
      ghost var before := pending.Contents();
      pending.Add(m);
      assert D.AllHaveContent(before + [m]);
      if succeeds {
        radio.SendGroup(MarshalMessage(m));
      }
    }

    // The responder's locked region. On any pending list nothing acknowledged stays and no unacknowledged id
    // vanishes without a resend. The outcome is a function of the list as long as the ids are distinct, which holds
    // in every run that draws fewer than 2^64 ids.
    method Receive(buffer: CString, clock: Clock) returns (ghost lost: seq<Element>)
      requires Valid() && toCount.None?
      modifies this, pending, pending.data, radio
      ensures Valid() && pending.data == old(pending.data)
      ensures buffer == "STOP" ==> lost == [] && View() == old(View()).(listening := false)
      ensures buffer != "STOP" ==>
        && View() == old(View()).(pending := View().pending, toCount := Some(|lost|))
        && D.Walked(old(View()).pending, ParseIds(buffer), clock, 0, View().pending, lost)
      ensures D.AllHaveContent(lost) && radio.sent == old(radio.sent) + D.MarshalAll(lost)
      ensures DistinctIds(old(View()).pending) ==>
        && View() == AfterAck(old(View()), buffer, clock)
        && radio.sent == old(radio.sent) + AckResends(old(View()), buffer, clock)
    {
      lost := [];
      if buffer == "STOP" {
        listening := false;
        assert radio.sent + [] == radio.sent;
        return;
      }
      ghost var before := View();
      var acks := UnmarshalIds(buffer);
      var count;
      count, lost := D.Diff(pending, acks, radio, clock);
      toCount := Some(count);
    }

    method CountMissed()
      requires Valid() && toCount.Some?
      modifies this
      ensures Valid() && View() == AfterCount(old(View()))
    {
      if toCount.value > 0 {
        missed := missed + toCount.value;
      }
      toCount := None;
    }
  }

  // ----- Server steps -----

  datatype ServerState = ServerState(ids: seq<Word64>, running: bool)

  // Every held id in segments, or one wake-up packet when there is none.
  function Replies(ids: seq<Word64>): seq<string> {
    var segments := AckSegments(ids, MAX_SEGMENT_SIZE);
    if segments == [] then ["WAKEUP"] else segments
  }

  function AfterPacket(s: ServerState, buffer: CString): ServerState {
    match Dispatch(buffer)
    case Stop => ServerState([], false)
    case Start => s
    case Heartbeat => s.(ids := [])
    case Data => s.(ids := s.ids + [UnmarshalMessage(buffer).id])
  }

  function PacketReplies(s: ServerState, buffer: CString): seq<string> {
    match Dispatch(buffer)
    case Stop => Replies(s.ids)
    case Start => []
    case Heartbeat => Replies(s.ids)
    case Data => []
  }

  class Server {
    const received: DynamicArray
    var running: bool
    const radio: Radio

    ghost predicate Valid()
      reads this, received, received.data
    {
      received.Valid() && received.kind.OfIds? && received.initial >= 2
    }

    ghost function View(): ServerState
      requires Valid()
      reads this, received, received.data
    {
      ServerState(Ids(received.Contents()), running)
    }

    constructor (capacity: nat)
      requires capacity >= 2
      ensures Valid() && View() == ServerState([], true)
      ensures fresh(received) && fresh(received.data) && fresh(radio) && radio.sent == []
    {
      received := new DynamicArray(capacity, OfIds);
      running := true;
      radio := new Radio();
    }

    method SendIds()
      requires Valid()
      modifies received, radio
      ensures Valid() && received.data == old(received.data)
      ensures View() == old(View()).(ids := [])
      ensures radio.sent == old(radio.sent) + Replies(old(View()).ids)
    {
      WordsFit(Ids(received.Contents()), MAX_SEGMENT_SIZE);
      var segments := MarshalAndSplit(received, MAX_SEGMENT_SIZE);
      for i := 0 to |segments|
        invariant Valid() && received.data == old(received.data) && View() == old(View())
        invariant radio.sent == old(radio.sent) + segments[..i]
      {
        assert segments[..i + 1] == segments[..i] + [segments[i]];
        radio.SendGroup(segments[i]);
      }
      assert segments[..|segments|] == segments;
      if |segments| == 0 {
        radio.SendGroup("WAKEUP");
      }
      var cleaned := received.CleanAll();
    }

    // One iteration of the receive loop.
    method Receive(buffer: CString)
      requires Valid() && running
      modifies this, received, received.data, radio
      ensures Valid() && (received.data == old(received.data) || fresh(received.data))
      ensures View() == AfterPacket(old(View()), buffer)
      ensures radio.sent == old(radio.sent) + PacketReplies(old(View()), buffer)
    {
      match Dispatch(buffer)
      case Stop =>
        SendIds();
        running := false;
      case Start =>
      case Heartbeat =>
        SendIds();
      case Data =>
        IdsAppend(received.Contents(), [Value(UnmarshalMessage(buffer).id)]);
        received.Add(Value(UnmarshalMessage(buffer).id));
    }
  }

  // ----- Whole runs of the server -----

  function Served(packets: seq<CString>): ServerState {
    if packets == [] then ServerState([], true)
    else
      var s := Served(packets[..|packets| - 1]);
      if s.running then AfterPacket(s, packets[|packets| - 1]) else s
  }

  function SentBy(packets: seq<CString>): seq<string> {
    if packets == [] then []
    else
      var front, last := packets[..|packets| - 1], packets[|packets| - 1];
      SentBy(front) + if Served(front).running then PacketReplies(Served(front), last) else []
  }

  // The ids of the messages that reached a running server, in the order of arrival.
  function ArrivedIds(packets: seq<CString>): seq<Word64> {
    if packets == [] then []
    else
      var front, last := packets[..|packets| - 1], packets[|packets| - 1];
      ArrivedIds(front) + if Served(front).running && Dispatch(last).Data? then [UnmarshalMessage(last).id] else []
  }

  // The ids that a list of replies acknowledges; a wake-up acknowledges none.
  function Acknowledged(replies: seq<string>): seq<Word64> {
    if replies == [] then []
    else (if replies[0] == "WAKEUP" then [] else ParseIds(replies[0])) + Acknowledged(replies[1..])
  }

  lemma {:induction false} AcknowledgedAppend(a: seq<string>, b: seq<string>)
    ensures Acknowledged(a + b) == Acknowledged(a) + Acknowledged(b)
  {
    if a == [] {
      assert a + b == b;
    } else {
      assert (a + b)[1..] == a[1..] + b;
      AcknowledgedAppend(a[1..], b);
    }
  }

  lemma {:induction false} AcknowledgedSegments(segments: seq<string>)
    requires "WAKEUP" !in segments
    ensures Acknowledged(segments) == Concat(ParseAll(segments))
  {
    if segments != [] {
      assert segments[0] in segments;
      AcknowledgedSegments(segments[1..]);
      assert ParseAll(segments)[1..] == ParseAll(segments[1..]);
    }
  }

  lemma RepliesAcknowledge(ids: seq<Word64>)
    ensures Acknowledged(Replies(ids)) == ids
  {
    var segments := AckSegments(ids, MAX_SEGMENT_SIZE);
    AckRoundTripAsShipped(ids);
    if segments == [] {
      assert ids == [] && Replies(ids)[1..] == [];
    } else {
      WordsFit(ids, MAX_SEGMENT_SIZE);
      SegmentsStartWithDigit(ids, MAX_SEGMENT_SIZE);
      assert "WAKEUP"[0] == 'W' && !IsDigit('W');
      AcknowledgedSegments(segments);
    }
  }

  // START changes nothing and is not answered, whatever follows it in the packet.
  lemma StartChangesNothing(s: ServerState, text: CString)
    ensures AfterPacket(s, "START" + text) == s && PacketReplies(s, "START" + text) == []
    ensures AfterPacket(s, "HB" + text).running == s.running && !AfterPacket(s, "STOP" + text).running
  {
    DispatchOn(text);
  }

  // Over any sequence of packets the server acknowledges every id that arrived once per arrival and in order:
  // what its replies name, followed by what it still holds, is what arrived. A stopped server holds nothing.
  lemma {:induction false} EveryArrivalAcknowledgedOnce(packets: seq<CString>)
    ensures Acknowledged(SentBy(packets)) + Served(packets).ids == ArrivedIds(packets)
    ensures !Served(packets).running ==> Served(packets).ids == []
  {
    if packets != [] {
      var front, last := packets[..|packets| - 1], packets[|packets| - 1];
      EveryArrivalAcknowledgedOnce(front);
      var s, named := Served(front), Acknowledged(SentBy(front));
      if s.running {
        AcknowledgedAppend(SentBy(front), PacketReplies(s, last));
        PacketConserves(s, last, named);
      } else {
        assert SentBy(packets) == SentBy(front) && ArrivedIds(packets) == ArrivedIds(front);
      }
    }
  }

  // One packet moves ids from the held to the acknowledged, and adds at most the one that arrived.
  lemma PacketConserves(s: ServerState, packet: CString, named: seq<Word64>)
    ensures named + Acknowledged(PacketReplies(s, packet)) + AfterPacket(s, packet).ids
         == named + s.ids + if Dispatch(packet).Data? then [UnmarshalMessage(packet).id] else []
  {
    if Dispatch(packet).Data? {
      Appended(named, s.ids, UnmarshalMessage(packet).id);
    } else if Dispatch(packet).Start? {
      Unchanged(named, s.ids);
    } else {
      RepliesAcknowledge(s.ids);
      Unchanged(named + s.ids, []);
    }
  }

  lemma Appended<T>(a: seq<T>, b: seq<T>, x: T)
    ensures a + [] + (b + [x]) == a + b + [x]
  {
  }

  lemma Unchanged<T>(a: seq<T>, b: seq<T>)
    ensures a + [] + b == a + b + [] == a + b
  {
  }
}
