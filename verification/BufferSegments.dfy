/** buffer_segments.c: cutting a marshalled id list into segments, with every write inside its block. */
module BufferSegments {
  import opened Words
  import opened Sequences
  import opened CText
  import opened CBuffers
  import opened Messages
  import opened Packing

  // strtok: skips separators, returns the run up to the next one and where to go on.
  method NextToken(s: CString, from: nat) returns (token: Option<CString>, next: nat)
    requires from <= |s|
    ensures from <= next <= |s| && (token.Some? ==> from < next)
    ensures Tokens(s[from..], BAR) == if token.None? then [] else [token.value] + Tokens(s[next..], BAR)
  {
    var i := SkipBars(s, from);
    if i == |s| {
      return None, i;
    }
    var j := TokenEnd(s, BAR, i);
    TokenAt(s, i, j);
    NoNulInside(s, i, j);
    token := Some(s[i..j]);
    next := if j < |s| then j + 1 else j;
  }

  method SkipBars(s: CString, from: nat) returns (i: nat)
    requires from <= |s|
    ensures from <= i <= |s| && (i < |s| ==> s[i] != BAR)
    ensures Tokens(s[from..], BAR) == Tokens(s[i..], BAR)
  {
    i := from;
    while i < |s| && s[i] == BAR
      invariant from <= i <= |s|
      invariant Tokens(s[from..], BAR) == Tokens(s[i..], BAR)
    {
      assert s[i..][1..] == s[i + 1..];
      i := i + 1;
    }
  }

  lemma NoNulInside(s: CString, i: nat, j: nat)
    requires i <= j <= |s|
    ensures NUL !in s[i..j]
  {
  }

  lemma TokenAt(s: string, i: nat, j: nat)
    requires i < j <= |s| && BAR !in s[i..j] && (j == |s| || s[j] == BAR)
    ensures Tokens(s[i..], BAR) == [s[i..j]] + Tokens(s[if j < |s| then j + 1 else j..], BAR)
  {
    assert s[i..] == s[i..j] + s[j..];
    RunOf(s[i..j], s[j..], BAR);
    assert s[i..][0] == s[i..j][0];
    assert s[i..][..j - i] == s[i..j] && s[i..][j - i..] == s[j..];
    if j < |s| {
      assert s[j..][1..] == s[j + 1..];
    }
  }

  // The number of slots the source allocates: one per separator, and one more unless the buffer ends with one.
  function Slots(s: string): nat {
    Count(s, BAR) + if s != [] && s[|s| - 1] != BAR then 1 else 0
  }

  lemma {:induction false} TokensFitSlots(s: string)
    ensures |Tokens(s, BAR)| <= Slots(s)
    decreases |s|
  {
    if s != [] {
      if s[0] == BAR {
        TokensFitSlots(s[1..]);
      } else {
        var n := Run(s, BAR);
        assert s == s[..n] + s[n..];
        CountAppend(s[..n], s[n..], BAR);
        CountZero(s[..n], BAR);
        if n < |s| {
          assert s[n..][1..] == s[n + 1..];
          TokensFitSlots(s[n + 1..]);
        }
      }
    }
  }

  // For a joined list of tokens the slots are as many as the tokens.
  lemma {:induction false} SlotsOfJoin(parts: seq<string>)
    requires parts != [] && ProperTokens(parts, BAR)
    ensures Slots(Join(parts, BAR)) == |parts| && Join(parts, BAR) != ""
  {
    var first := parts[0];
    CountZero(first, BAR);
    if |parts| == 1 {
      assert first[|first| - 1] in first;
    } else {
      var rest := Join(parts[1..], BAR);
      SlotsOfJoin(parts[1..]);
      CountAppend(first, [BAR] + rest, BAR);
      assert first + [BAR] + rest == first + ([BAR] + rest);
      assert ([BAR] + rest)[1..] == rest;
    }
  }

  // The counting pass over the buffer.
  method CountSlots(buffer: CString) returns (bars: nat, slots: nat)
    ensures bars == Count(buffer, BAR) && slots == Slots(buffer)
  {
    bars := 0;
    var i := 0;
    while i < |buffer|
      invariant 0 <= i <= |buffer|
      invariant Count(buffer, BAR) == bars + Count(buffer[i..], BAR)
    {
      assert buffer[i..][1..] == buffer[i + 1..];
      if buffer[i] == BAR {
        bars := bars + 1;
      }
      i := i + 1;
    }
    slots := bars;
    if |buffer| > 0 && buffer[|buffer| - 1] != BAR {
      slots := slots + 1;
    }
  }

  predicate TokensFit(tokens: seq<string>, max: nat) {
    forall i :: 0 <= i < |tokens| ==> |tokens[i]| <= max
  }

  // A token longer than a segment would overrun the segment block, and a buffer without tokens would leave the
  // one reported segment unset, so the source's caller must rule both out.
  method SplitBuffer(buffer: CString, max: nat) returns (result: seq<string>)
    requires Tokens(buffer, BAR) != []
    requires (|buffer| > max && BAR !in buffer) || TokensFit(Tokens(buffer, BAR), max)
    ensures result == Segments(buffer, max)
    ensures |result| <= Slots(buffer)
  {
    var bars, slots := CountSlots(buffer);
    CountZero(buffer, BAR);
    if |buffer| > max && bars == 0 {
      return [];
    }
    TokensFitSlots(buffer);
    result := PackTokens(buffer, max, slots);
  }

  // The tokens not yet packed: the one in hand, then those strtok has still to find.
  ghost predicate Remaining(rest: seq<string>, token: Option<CString>, buffer: CString, next: nat) {
    && next <= |buffer|
    && rest == if token.None? then [] else [token.value] + Tokens(buffer[next..], BAR)
  }

  // The packing loop, with room for `slots` segments.
  method PackTokens(buffer: CString, max: nat, slots: nat) returns (result: seq<string>)
    requires Tokens(buffer, BAR) != [] && TokensFit(Tokens(buffer, BAR), max)
    requires |Tokens(buffer, BAR)| <= slots
    ensures result == Texts(Pack([], Tokens(buffer, BAR), max), BAR) && |result| <= slots
  {
    ghost var all := Tokens(buffer, BAR);
    TokensAreProper(buffer, BAR);
    var segments := new string[slots];
    var index: nat, size: nat := 0, 0;
    var block := new char[max + 1];
    var token, next := NextToken(buffer, 0);
    assert buffer[0..] == buffer;
    ghost var current: seq<string> := [];
    ghost var k: nat := 0;
    while token.Some?
      invariant k <= |all| && Remaining(all[k..], token, buffer, next)
      invariant block.Length == max + 1 && fresh(block) && BlockHolds(block, size, current)
      invariant index + (if current == [] then 0 else 1) <= k
      invariant k > 0 ==> current != []
      invariant Packed(all, current, all[k..], segments[..index], max)
      decreases |all| - k
    {
      assert all[k] == token.value && all[k..][1..] == all[k + 1..] && k < |all|;
      index, block, size, current := PlaceToken(segments, index, block, size, token.value, max, all, current, all[k..]);
      k := k + 1;
      token, next := NextToken(buffer, next);
    }
    if size > 0 {
      segments[index] := block[..size];
    }
    TextsOfOne(current);
    assert segments[..index + 1] == segments[..index] + [Join(current, BAR)];
    return segments[..index + 1];
  }

  lemma TextsOfOne(group: seq<string>)
    ensures forall max :: Texts(Pack(group, [], max), BAR) == [Join(group, BAR)]
  {
  }

  // The block's first `size` characters are the current group joined, and it is empty only without a group.
  ghost predicate BlockHolds(block: array<char>, size: nat, current: seq<string>)
    reads block
  {
    && size < block.Length && block[..size] == Join(current, BAR)
    && (size == 0 <==> current == [])
  }

  // One turn of the packing loop: closes the current segment if the token does not fit, then writes the token.
  method PlaceToken(segments: array<string>, index: nat, block: array<char>, size: nat, text: CString, max: nat,
                    ghost all: seq<string>, ghost current: seq<string>, ghost rest: seq<string>)
    returns (newIndex: nat, newBlock: array<char>, newSize: nat, ghost group: seq<string>)
    requires index < segments.Length && block.Length == max + 1 && BlockHolds(block, size, current)
    requires rest != [] && rest[0] == text && 0 < |text| <= max
    requires Packed(all, current, rest, segments[..index], max)
    modifies segments, block
    ensures newBlock == block || fresh(newBlock)
    ensures newBlock.Length == max + 1 && BlockHolds(newBlock, newSize, group) && group != []
    ensures newIndex == if Fits(current + [text], max) then index else index + 1
    ensures newIndex > index ==> current != []
    ensures Packed(all, group, rest[1..], segments[..newIndex], max)
  {
    PackStep(all, current, rest, segments[..index], max);
    JoinedLength(current, text);
    newIndex, newBlock, newSize, group := index, block, size, current + [text];
    if size + |text| + (if size > 0 then 1 else 0) > max {
      segments[index] := block[..size];
      assert segments[..index + 1] == segments[..index] + [Join(current, BAR)];
      newIndex, newBlock, newSize, group := index + 1, new char[max + 1], 0, [text];
      JoinedLength([], text);
      assert [] + [text] == [text];
    }
    newSize := AppendToken(newBlock, newSize, text);
  }

  // Writes the delimiter unless the block is empty, then the token.
  method AppendToken(block: array<char>, size: nat, text: CString) returns (newSize: nat)
    requires size + |text| + (if size > 0 then 1 else 0) < block.Length
    modifies block
    ensures newSize < block.Length
    ensures block[..newSize] == old(block[..size]) + (if size > 0 then [BAR] else []) + text
  {
    newSize := size;
    if size > 0 {
      block[size] := BAR;
      newSize := size + 1;
    }
    ghost var head := block[..newSize];
    StrCpy(block, newSize, text);
    assert block[..newSize + |text|] == head + block[newSize..newSize + |text|];
    newSize := newSize + |text|;
  }

  // The finished segments and the packing of what is left make up the packing of everything.
  ghost predicate Packed(all: seq<string>, current: seq<string>, rest: seq<string>, done: seq<string>, max: nat) {
    Texts(Pack([], all, max), BAR) == done + Texts(Pack(current, rest, max), BAR)
  }

  lemma PackStep(all: seq<string>, current: seq<string>, rest: seq<string>, done: seq<string>, max: nat)
    requires rest != [] && Packed(all, current, rest, done, max)
    ensures Fits(current + [rest[0]], max) ==> Packed(all, current + [rest[0]], rest[1..], done, max)
    ensures !Fits(current + [rest[0]], max) ==> Packed(all, [rest[0]], rest[1..], done + [Join(current, BAR)], max)
  {
    if !Fits(current + [rest[0]], max) {
      var tail := Pack([rest[0]], rest[1..], max);
      TextsCons(current, tail, BAR);
      RegroupMiddle(done, Join(current, BAR), Texts(tail, BAR));
    }
  }

  lemma JoinedLength(current: seq<string>, text: string)
    ensures Join(current + [text], BAR) == if current == [] then text else Join(current, BAR) + [BAR] + text
  {
    assert Join([text], BAR) == text;
    if current == [] {
      assert current + [text] == [text];
    } else {
      JoinConcat(current, [text], BAR);
    }
  }
}
