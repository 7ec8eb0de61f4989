/** Acknowledgement packets: printing the received ids, cutting them into segments, and reading them back. */
module WireIds {
  import opened Words
  import opened Sequences
  import opened CText
  import opened CBuffers
  import opened Messages
  import opened DynamicArrays
  import opened Packing
  import opened BufferSegments

  const MAX_SEGMENT_SIZE := 1024

  function Printed(ids: seq<Word64>): (r: seq<string>)
    ensures |r| == |ids| && forall i :: 0 <= i < |ids| ==> r[i] == Decimal(ids[i])
  {
    seq(|ids|, i requires 0 <= i < |ids| => Decimal(ids[i]))
  }

  function Parsed(tokens: seq<string>): (r: seq<Word64>)
    ensures |r| == |tokens| && forall i :: 0 <= i < |tokens| ==> r[i] == Strtoull(tokens[i])
  {
    seq(|tokens|, i requires 0 <= i < |tokens| => Strtoull(tokens[i]))
  }

  // The ids a client reads out of one packet.
  function ParseIds(buffer: string): seq<Word64> {
    Parsed(Tokens(buffer, BAR))
  }

  // The packets a server sends for the ids it holds.
  function AckSegments(ids: seq<Word64>, max: nat): seq<string> {
    if ids == [] then [] else Segments(Join(Printed(ids), BAR), max)
  }

  function ParseAll(segments: seq<string>): (r: seq<seq<Word64>>)
    ensures |r| == |segments| && forall i :: 0 <= i < |segments| ==> r[i] == ParseIds(segments[i])
  {
    seq(|segments|, i requires 0 <= i < |segments| => ParseIds(segments[i]))
  }

  // ----- Round trip -----

  lemma PrintedIsProper(ids: seq<Word64>)
    ensures ProperTokens(Printed(ids), BAR)
    ensures Tokens(Join(Printed(ids), BAR), BAR) == Printed(ids)
  {
    forall i | 0 <= i < |ids|
      ensures BAR !in Printed(ids)[i]
    {
      assert AllDigits(Decimal(ids[i]));
    }
    TokensOfJoin(Printed(ids), BAR);
  }

  lemma ParsedOfPrinted(ids: seq<Word64>)
    ensures Parsed(Printed(ids)) == ids
  {
    forall i | 0 <= i < |ids|
      ensures Parsed(Printed(ids))[i] == ids[i]
    {
      ScanDecimal(ids[i]);
    }
  }

  lemma {:induction false} ParsedConcat(groups: seq<seq<string>>, parsed: seq<seq<Word64>>)
    requires |parsed| == |groups| && forall i :: 0 <= i < |groups| ==> parsed[i] == Parsed(groups[i])
    ensures Concat(parsed) == Parsed(Concat(groups))
  {
    if groups != [] {
      ParsedConcat(groups[1..], parsed[1..]);
    }
  }

  // Tokenising and reading a list of segments reads the groups they were joined from.
  lemma TextsParseBack(groups: seq<seq<string>>)
    requires ProperTokens(Concat(groups), BAR)
    ensures Concat(ParseAll(Texts(groups, BAR))) == Parsed(Concat(groups))
  {
    GroupsAreProper(groups);
    TokensOfTexts(groups);
    ParsedConcat(groups, ParseAll(Texts(groups, BAR)));
  }

  // Reading every segment in order gives back exactly the ids that were packed.
  lemma SegmentsParseBack(ids: seq<Word64>, max: nat)
    requires TokensFit(Printed(ids), max)
    ensures Concat(ParseAll(AckSegments(ids, max))) == ids
    ensures forall i :: 0 <= i < |AckSegments(ids, max)| ==> |AckSegments(ids, max)[i]| <= max
    ensures ids != [] ==> AckSegments(ids, max) != []
  {
    if ids != [] {
      var tokens := Printed(ids);
      var groups := Pack([], tokens, max);
      AckSegmentsAreTexts(ids, max);
      PackKeepsTokens([], tokens, max);
      PackFits([], tokens, max);
      assert [] + tokens == tokens;
      PrintedIsProper(ids);
      TextsParseBack(groups);
      ParsedOfPrinted(ids);
    }
  }

  lemma AckSegmentsAreTexts(ids: seq<Word64>, max: nat)
    requires ids != [] && TokensFit(Printed(ids), max)
    ensures AckSegments(ids, max) == Texts(Pack([], Printed(ids), max), BAR)
  {
    PrintedIsProper(ids);
    OneLongToken(ids, max);
  }

  // The early exit for an over-long buffer is taken only for a single id that is too long.
  lemma OneLongToken(ids: seq<Word64>, max: nat)
    requires ids != []
    ensures var buffer := Join(Printed(ids), BAR);
      (|buffer| > max && BAR !in buffer) <==> (|ids| == 1 && !TokensFit(Printed(ids), max))
  {
    PrintedIsProper(ids);
    if |ids| == 1 {
      assert Join(Printed(ids), BAR) == Printed(ids)[0];
    } else {
      assert Join(Printed(ids), BAR)[|Printed(ids)[0]|] == BAR;
    }
  }

  // Wherever the source's behaviour is defined, the round trip holds exactly when every id fits a segment:
  // a single id too long for one is dropped.
  lemma AckRoundTrip(ids: seq<Word64>, max: nat)
    requires |ids| == 1 || TokensFit(Printed(ids), max)
    ensures Concat(ParseAll(AckSegments(ids, max))) == ids <==> TokensFit(Printed(ids), max)
  {
    if TokensFit(Printed(ids), max) {
      SegmentsParseBack(ids, max);
    } else {
      OneLongToken(ids, max);
      assert AckSegments(ids, max) == [];
    }
  }

  lemma WordsFit(ids: seq<Word64>, max: nat)
    requires max >= 20
    ensures TokensFit(Printed(ids), max)
  {
    forall i | 0 <= i < |ids|
      ensures |Printed(ids)[i]| <= max
    {
      WordFitsTwentyDigits(ids[i]);
    }
  }

  // With the shipped limit every list of ids makes it back, and every packet fits the client's receive buffer
  // together with the NUL that ends it.
  lemma AckRoundTripAsShipped(ids: seq<Word64>)
    ensures var segments := AckSegments(ids, MAX_SEGMENT_SIZE);
      && Concat(ParseAll(segments)) == ids
      && (forall i :: 0 <= i < |segments| ==> |segments[i]| <= 1024 && |segments[i]| + 1 <= 2048)
      && (ids != [] ==> segments != [])
  {
    WordsFit(ids, MAX_SEGMENT_SIZE);
    SegmentsParseBack(ids, MAX_SEGMENT_SIZE);
  }

  lemma {:induction false} GroupsOfDigits(groups: seq<seq<string>>)
    requires forall i :: 0 <= i < |Concat(groups)| ==> Concat(groups)[i] != "" && AllDigits(Concat(groups)[i])
    ensures forall i :: 0 <= i < |groups| && groups[i] != [] ==> groups[i][0] != "" && AllDigits(groups[i][0])
  {
    if groups != [] {
      var g, rest := groups[0], Concat(groups[1..]);
      assert forall k :: 0 <= k < |g| ==> g[k] == (g + rest)[k];
      assert forall k :: 0 <= k < |rest| ==> rest[k] == (g + rest)[|g| + k];
      assert Concat(groups) == g + rest;
      GroupsOfDigits(groups[1..]);
      assert g != [] ==> g[0] == Concat(groups)[0];
      assert forall i :: 1 <= i < |groups| ==> groups[i] == groups[1..][i - 1];
    }
  }

  // An acknowledgement starts with a digit, so the responder never takes it for the packet that stops it.
  lemma SegmentsStartWithDigit(ids: seq<Word64>, max: nat)
    requires TokensFit(Printed(ids), max)
    ensures var segments := AckSegments(ids, max);
      forall i :: 0 <= i < |segments| ==> segments[i] != "" && IsDigit(segments[i][0])
  {
    if ids != [] {
      var tokens := Printed(ids);
      var groups := Pack([], tokens, max);
      AckSegmentsAreTexts(ids, max);
      PackKeepsTokens([], tokens, max);
      assert [] + tokens == tokens;
      GroupsOfDigits(groups);
      PackStarts(tokens, max);
      PackGroupsNonEmpty([tokens[0]], tokens[1..], max);
      forall i | 0 <= i < |groups|
        ensures Texts(groups, BAR)[i] != "" && IsDigit(Texts(groups, BAR)[i][0])
      {
        assert Join(groups[i], BAR)[0] == groups[i][0][0];
      }
    }
  }

  // "WAKEUP" reads as the single id 0.
  lemma WakeupIsZero()
    ensures ParseIds("WAKEUP") == [0]
  {
    var s := "WAKEUP";
    assert BAR !in s;
    RunOf(s, [], BAR);
    assert s + [] == s && s[..6] == s && s[6..] == [];
    assert Tokens(s, BAR) == [s];
  }

  // ----- The marshalling loops -----

  // The block size the source computes: each printed id, its delimiter, and one more.
  function Room(ids: seq<Word64>): nat {
    if ids == [] then 0 else Room(ids[..|ids| - 1]) + |Decimal(ids[|ids| - 1])| + 2
  }

  lemma {:induction false} RoomGrows(ids: seq<Word64>, i: nat)
    requires i <= |ids|
    ensures Room(ids[..i]) <= Room(ids)
  {
    if i == |ids| {
      assert ids[..i] == ids;
    } else {
      assert ids[..|ids| - 1][..i] == ids[..i];
      RoomGrows(ids[..|ids| - 1], i);
    }
  }

  // The ids printed so far, each followed by the delimiter.
  function Lines(ids: seq<Word64>): string {
    if ids == [] then "" else Join(Printed(ids), BAR) + [BAR]
  }

  lemma RoomFor(ids: seq<Word64>, i: nat)
    requires i < |ids|
    ensures Room(ids[..i + 1]) == Room(ids[..i]) + |Decimal(ids[i])| + 2
    ensures Room(ids[..i + 1]) <= Room(ids)
  {
    assert ids[..i + 1][..i] == ids[..i];
    RoomGrows(ids, i + 1);
  }

  lemma LinesGrow(ids: seq<Word64>, id: Word64)
    ensures Lines(ids + [id]) == Lines(ids) + (Decimal(id) + [BAR])
  {
    assert Printed(ids + [id]) == Printed(ids) + [Decimal(id)];
    assert Join([Decimal(id)], BAR) == Decimal(id);
    if ids != [] {
      JoinConcat(Printed(ids), [Decimal(id)], BAR);
    } else {
      assert Printed(ids + [id]) == [Decimal(id)];
    }
  }

  lemma WriteStep(ids: seq<Word64>, i: nat)
    requires i < |ids|
    ensures Room(ids[..i + 1]) == Room(ids[..i]) + |Decimal(ids[i])| + 2 && Room(ids[..i + 1]) <= Room(ids)
    ensures Lines(ids[..i + 1]) == Lines(ids[..i]) + (Decimal(ids[i]) + [BAR])
  {
    RoomFor(ids, i);
    LinesGrow(ids[..i], ids[i]);
    assert ids[..i + 1] == ids[..i] + [ids[i]];
  }

  lemma {:induction false} JoinHasNoNul(parts: seq<string>)
    requires forall i :: 0 <= i < |parts| ==> NUL !in parts[i]
    ensures NUL !in Join(parts, BAR)
  {
    if |parts| > 1 {
      JoinHasNoNul(parts[1..]);
    }
  }

  // What the first pass allocates is one character an id more than the second pass writes.
  lemma {:induction false} RoomIsExact(ids: seq<Word64>)
    ensures Room(ids) == |Lines(ids)| + |ids|
  {
    if ids != [] {
      var n := |ids| - 1;
      RoomIsExact(ids[..n]);
      assert ids[..n + 1] == ids;
      WriteStep(ids, n);
    }
  }

  // The first pass: how large a block to allocate.
  method MeasureIds(held: DynamicArray) returns (bufferSize: nat)
    requires held.Valid()
    ensures bufferSize == Room(Ids(held.Contents()))
  {
    ghost var ids := Ids(held.Contents());
    bufferSize := 0;
    for i := 0 to held.size
      invariant bufferSize == Room(ids[..i])
    {
      RoomFor(ids, i);
      bufferSize := bufferSize + |Decimal(held.data[i].id)| + 1 + 1;
    }
    assert ids[..held.size] == ids;
  }

  method Sprintf(buffer: array<char>, ptr: nat, text: CString) returns (next: nat)
    requires ptr + |text| < buffer.Length
    modifies buffer
    ensures next == ptr + |text| && buffer[..next] == old(buffer[..ptr]) + text
  {
    StrCpy(buffer, ptr, text);
    next := ptr + |text|;
    assert buffer[..next] == buffer[..ptr] + buffer[ptr..next];
  }

  // The second pass: sprintf after sprintf, each at the place where the last one stopped.
  method WriteIds(held: DynamicArray, buffer: array<char>) returns (ptr: nat)
    requires held.Valid() && buffer.Length == Room(Ids(held.Contents()))
    modifies buffer
    ensures ptr <= buffer.Length && buffer[..ptr] == Lines(Ids(held.Contents()))
  {
    ghost var ids := Ids(held.Contents());
    ptr := 0;
    for i := 0 to held.size
      invariant ptr + i == Room(ids[..i]) && ptr <= buffer.Length
      invariant buffer[..ptr] == Lines(ids[..i])
    {
      var text := Decimal(held.data[i].id) + [BAR];
      WriteStep(ids, i);
      ptr := Sprintf(buffer, ptr, text);
    }
    assert ids[..held.size] == ids;
  }

  method MarshalIds(held: DynamicArray) returns (r: Option<CString>)
    requires held.Valid() && held.kind.OfIds?
    ensures r.None? <==> held.size == 0
    ensures r.Some? ==> r.value == Join(Printed(Ids(held.Contents())), BAR)
  {
    if held.size == 0 {
      return None;
    }
    ghost var joined := Join(Printed(Ids(held.Contents())), BAR);
    var bufferSize := MeasureIds(held);
    var buffer := new char[bufferSize];
    var ptr := WriteIds(held, buffer);
    assert buffer[..ptr] == joined + [BAR];
    buffer[ptr - 1] := NUL;
    assert buffer[..ptr - 1] == joined;
    JoinHasNoNul(Printed(Ids(held.Contents())));
    assert Holds(buffer, joined);
    return Some(buffer[..ptr - 1]);
  }

  lemma ParsedAppend(tokens: seq<string>, k: nat)
    requires k < |tokens|
    ensures Parsed(tokens[..k + 1]) == Parsed(tokens[..k]) + [Strtoull(tokens[k])]
  {
  }

  lemma TokenInHand(all: seq<string>, k: nat, token: CString, buffer: CString, next: nat)
    requires k <= |all| && Remaining(all[k..], Some(token), buffer, next)
    ensures k < |all| && all[k] == token && all[k + 1..] == Tokens(buffer[next..], BAR)
    ensures Parsed(all[..k + 1]) == Parsed(all[..k]) + [Strtoull(token)]
  {
    assert all[k] == all[k..][0] && all[k..][1..] == all[k + 1..];
    ParsedAppend(all, k);
  }

  method AddId(held: DynamicArray, id: Word64)
    requires held.Valid() && held.kind.OfIds? && held.data.Length >= 10
    modifies held, held.data
    ensures held.Valid() && (held.data == old(held.data) || fresh(held.data)) && held.data.Length >= 10
    ensures Ids(held.Contents()) == old(Ids(held.Contents())) + [id]
  {
    IdsAppend(held.Contents(), [Value(id)]);
    held.Add(Value(id));
  }

  method UnmarshalIds(buffer: CString) returns (held: DynamicArray)
    ensures fresh(held) && fresh(held.data) && held.Valid() && held.kind.OfIds?
    ensures Ids(held.Contents()) == ParseIds(buffer) && held.initial == 10
  {
    held := new DynamicArray(10, OfIds);
    var token, next := NextToken(buffer, 0);
    assert buffer[0..] == buffer;
    ghost var all := Tokens(buffer, BAR);
    ghost var k: nat := 0;
    while token.Some?
      invariant k <= |all| && Remaining(all[k..], token, buffer, next)
      invariant fresh(held) && fresh(held.data) && held.Valid() && held.kind.OfIds?
      invariant held.data.Length >= 10
      invariant Ids(held.Contents()) == Parsed(all[..k])
      decreases |all| - k
    {
      TokenInHand(all, k, token.value, buffer, next);
      AddId(held, Strtoull(token.value));
      k := k + 1;
      token, next := NextToken(buffer, next);
    }
    assert all[..k] == all;
  }

  method MarshalAndSplit(held: DynamicArray, max: nat) returns (segments: seq<string>)
    requires held.Valid() && held.kind.OfIds?
    requires held.size == 1 || TokensFit(Printed(Ids(held.Contents())), max)
    ensures segments == AckSegments(Ids(held.Contents()), max)
  {
    ghost var ids := Ids(held.Contents());
    var buffer := MarshalIds(held);
    if buffer.None? {
      return [];
    }
    PrintedIsProper(ids);
    OneLongToken(ids, max);
    segments := SplitBuffer(buffer.value, max);
  }
}
