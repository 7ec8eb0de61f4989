/** Array elements, the message wire format, and the server's dispatch on a packet's first characters. */
module Messages {
  import opened Words
  import opened CText

  const BAR: char := '|'

  // What a DynamicArray slot points to: a bare id or a whole message. Both start with the id.
  datatype Element =
    | Value(id: Word64)
    | Msg(id: Word64, content: Option<CString>, timestamp: Int64)

  function Ids(s: seq<Element>): (r: seq<Word64>)
    ensures |r| == |s| && forall i :: 0 <= i < |s| ==> r[i] == s[i].id
  {
    seq(|s|, i requires 0 <= i < |s| => s[i].id)
  }

  lemma IdsAppend(a: seq<Element>, b: seq<Element>)
    ensures Ids(a + b) == Ids(a) + Ids(b)
    ensures |b| == 1 ==> Ids(b) == [b[0].id]
    ensures |a| == 1 ==> Ids(a) == [a[0].id]
  {
  }

  type Message = e: Element | e.Msg? witness Msg(0, None, 0)

  // Printing a NULL content is undefined in C, hence the precondition.
  function MarshalMessage(m: Message): (s: CString)
    requires m.content.Some?
  {
    Decimal(m.id) + [BAR] + Decimal(AsUnsigned(m.timestamp)) + [BAR] + m.content.value
  }

  function UnmarshalMessage(buffer: CString): Message {
    var n := Run(buffer, BAR);
    if n == |buffer| then Msg(Strtoull(buffer), None, 0)
    else
      var rest := buffer[n + 1..];
      var k := Run(rest, BAR);
      if k == |rest| then Msg(Strtoull(buffer[..n]), None, Strtoll(rest))
      else Msg(Strtoull(buffer[..n]), Some(rest[k + 1..]), Strtoll(rest[..k]))
  }

  datatype Signal = Stop | Start | Heartbeat | Data

  // The strncmp chain at the top of the server loop.
  function Dispatch(buffer: CString): Signal {
    if "STOP" <= buffer then Stop
    else if "START" <= buffer then Start
    else if "HB" <= buffer then Heartbeat
    else Data
  }

  // Id and content always survive the wire. A negative timestamp is printed as an unsigned number
  // of at least 2^63, which the receiving side clamps to the largest long long.
  lemma MessageOnTheWire(m: Message)
    requires m.content.Some?
    ensures UnmarshalMessage(MarshalMessage(m))
         == m.(timestamp := if m.timestamp >= 0 then m.timestamp else 9_223_372_036_854_775_807)
  {
    var first := Decimal(m.id);
    var second := Decimal(AsUnsigned(m.timestamp));
    var buffer := MarshalMessage(m);
    var rest := second + [BAR] + m.content.value;
    assert buffer == first + [BAR] + rest;
    CutAtBar(first, rest);
    CutAtBar(second, m.content.value);
    ScanDecimal(m.id);
    ScanDecimal(AsUnsigned(m.timestamp));
  }

  // strchr finds the bar that ends a run of digits.
  lemma CutAtBar(digits: string, rest: string)
    requires AllDigits(digits)
    ensures var s := digits + [BAR] + rest;
      Run(s, BAR) == |digits| && s[..|digits|] == digits && s[|digits| + 1..] == rest
  {
    assert digits + [BAR] + rest == digits + ([BAR] + rest);
    RunOf(digits, [BAR] + rest, BAR);
  }

  // Marshalling loses nothing exactly when the timestamp is not negative.
  lemma MessageRoundTrip(m: Message)
    requires m.content.Some?
    ensures UnmarshalMessage(MarshalMessage(m)) == m <==> m.timestamp >= 0
  {
    MessageOnTheWire(m);
  }

  // A marshalled message is never mistaken for a control packet, whatever its content.
  lemma MarshalledIsData(m: Message)
    requires m.content.Some?
    ensures Dispatch(MarshalMessage(m)) == Data
  {
    var s := MarshalMessage(m);
    assert s[0] == Decimal(m.id)[0];
    assert IsDigit(s[0]);
    assert "STOP"[0] == 'S' && "START"[0] == 'S' && "HB"[0] == 'H';
  }

  // The wire form, field by field: digits, a bar, digits, a bar, and the content as it is. A negative timestamp
  // prints as the unsigned number with the same bits.
  lemma MessageLayout(m: Message)
    requires m.content.Some?
    ensures var s := MarshalMessage(m);
      var stamp := if m.timestamp >= 0 then m.timestamp else m.timestamp + 18_446_744_073_709_551_616;
      && Run(s, '|') == |Decimal(m.id)| < |s| && s[..|Decimal(m.id)|] == Decimal(m.id)
      && s[|Decimal(m.id)| + 1..] == Decimal(stamp) + ['|'] + m.content.value
  {
    var rest := Decimal(AsUnsigned(m.timestamp)) + [BAR] + m.content.value;
    assert MarshalMessage(m) == Decimal(m.id) + [BAR] + rest;
    CutAtBar(Decimal(m.id), rest);
  }

  // Which packets are control packets: each kind by its first characters, everything else is a message.
  lemma DispatchOn(text: CString)
    ensures Dispatch("STOP" + text) == Stop && Dispatch("START" + text) == Start && Dispatch("HB" + text) == Heartbeat
    ensures Dispatch(text).Data? || "ST" <= text || "HB" <= text
    ensures "ST" <= text && !("STOP" <= text) && !("START" <= text) ==> Dispatch(text).Data?
  {
    assert ("START" + text)[2] == 'A' && "STOP"[2] == 'O';
    assert ("HB" + text)[0] == 'H';
    assert "STOP" <= text ==> text[..2] == "STOP"[..2];
    assert "START" <= text ==> text[..2] == "START"[..2];
  }

  // Any text read as a message, by its pieces between bars: the first is the id, the second the timestamp, and all
  // the others together, bars included, the content. What is missing is 0, or no content at all.
  lemma UnmarshalByPieces(text: CString)
    ensures var p, m := Split(text, '|'), UnmarshalMessage(text);
      && m.id == Strtoull(p[0])
      && m.timestamp == (if |p| > 1 then Strtoll(p[1]) else 0)
      && m.content == if |p| > 2 then Some(Join(p[2..], '|')) else None
  {
    var n := Run(text, BAR);
    FirstPiece(text);
    if n < |text| {
      var rest := text[n + 1..];
      var k := Run(rest, BAR);
      FirstPiece(rest);
      if k < |rest| {
        TwoThenRest(text[..n], rest[..k], Split(rest[k + 1..], BAR));
        JoinOfSplit(rest[k + 1..], BAR);
      }
    }
  }

  lemma TwoThenRest<T>(a: T, b: T, rest: seq<T>)
    ensures var s := [a] + ([b] + rest);
      |s| == |rest| + 2 && s[0] == a && s[1] == b && s[2..] == rest
  {
  }

  lemma FirstPiece(text: string)
    ensures var n := Run(text, BAR);
      Split(text, BAR) == if n == |text| then [text] else [text[..n]] + Split(text[n + 1..], BAR)
  {
  }
}
