/** Bounded batches of received ids, as process_message_ids of utils.c builds and sends them. */
module Batching {
  import opened Words
  import opened Sequences
  import opened CText
  import opened CBuffers
  import opened Radios

  const MAX_RESPONSE_LENGTH: nat := 1024
  const ID_MAX_LENGTH: nat := 37
  const COMMA: char := ','

  // (1024 - 1) / (37 + 1)
  const IDS_PER_BATCH: nat := (MAX_RESPONSE_LENGTH - 1) / (ID_MAX_LENGTH + 1)

  // ----- Batching -----

  function AsList<T>(last: Option<T>): seq<T> {
    if last.Some? then [last.value] else []
  }

  // Full batches in order; the final one also carries `last`.
  function Groups<T>(ids: seq<T>, last: Option<T>): seq<seq<T>>
    decreases |ids|
  {
    if ids == [] then []
    else if |ids| <= IDS_PER_BATCH then [ids + AsList(last)]
    else [ids[..IDS_PER_BATCH]] + Groups(ids[IDS_PER_BATCH..], last)
  }

  // A final batch holding one empty id and nothing else is an empty string, and is never sent.
  predicate TailLost(ids: seq<string>, last: Option<string>) {
    last.None? && |ids| % IDS_PER_BATCH == 1 && ids[|ids| - 1] == ""
  }

  function Batches(ids: seq<string>, last: Option<string>): seq<string> {
    var texts := Texts(Groups(ids, last), COMMA);
    if TailLost(ids, last) && texts != [] then texts[..|texts| - 1] else texts
  }

  predicate ShortIds(ids: seq<string>) {
    forall i :: 0 <= i < |ids| ==> |ids[i]| < ID_MAX_LENGTH && NUL !in ids[i]
  }

  // Strings as C sees them, without a NUL inside.
  predicate CStrings(ids: seq<string>) {
    forall i :: 0 <= i < |ids| ==> NUL !in ids[i]
  }

  // Every batch leaves room for its NUL in the response buffer.
  predicate AllSendable(groups: seq<seq<string>>) {
    forall i :: 0 <= i < |groups| ==> |Join(groups[i], COMMA)| + 1 <= MAX_RESPONSE_LENGTH
  }

  lemma {:induction false} JoinBound(ids: seq<string>)
    requires ShortIds(ids)
    ensures |Join(ids, COMMA)| <= ID_MAX_LENGTH * |ids|
    ensures ids != [] ==> |Join(ids, COMMA)| < ID_MAX_LENGTH * |ids|
    ensures NUL !in Join(ids, COMMA)
  {
    if |ids| > 1 {
      JoinBound(ids[1..]);
    }
  }

  lemma JoinExtend(ids: seq<string>, id: string)
    ensures Join(ids + [id], COMMA) == if ids == [] then id else Join(ids, COMMA) + [COMMA] + id
  {
    assert Join([id], COMMA) == id;
    if ids == [] {
      assert ids + [id] == [id];
    } else {
      JoinConcat(ids, [id], COMMA);
    }
  }

  lemma {:induction false} GroupsKeepIds<T>(ids: seq<T>, last: Option<T>)
    requires ids != []
    ensures Concat(Groups(ids, last)) == ids + AsList(last)
    ensures Groups(ids, last) != [] && forall i :: 0 <= i < |Groups(ids, last)| ==> Groups(ids, last)[i] != []
    decreases |ids|
  {
    if |ids| <= IDS_PER_BATCH {
      assert Concat([ids + AsList(last)]) == ids + AsList(last) + Concat([]);
    } else {
      var front, rest := ids[..IDS_PER_BATCH], ids[IDS_PER_BATCH..];
      GroupsKeepIds(rest, last);
      assert ids == front + rest;
    }
  }

  // The batch closed at index `i`, when the ids since `start` fill it or end the list.
  lemma NextBatch(ids: seq<string>, last: Option<string>, start: nat, i: nat)
    requires start <= i < |ids| && i + 1 - start <= IDS_PER_BATCH
    requires i + 1 - start == IDS_PER_BATCH || i == |ids| - 1
    ensures var extra := if i == |ids| - 1 then AsList(last) else [];
      Groups(ids[start..], last) == [ids[start..i + 1] + extra] + Groups(ids[i + 1..], last)
  {
    var rest := ids[start..];
    if i == |ids| - 1 {
      assert ids[start..i + 1] == rest;
    } else {
      assert rest[..IDS_PER_BATCH] == ids[start..i + 1] && rest[IDS_PER_BATCH..] == ids[i + 1..];
      assert ids[start..i + 1] + [] == ids[start..i + 1];
    }
  }

  // Every part of the batch under construction fits when the finished batch does.
  lemma PartFits(ids: seq<string>, last: Option<string>, start: nat, i: nat)
    requires start <= i < |ids| && i + 1 - start <= IDS_PER_BATCH
    requires AllSendable(Groups(ids[start..], last))
    ensures |Join(ids[start..i + 1], COMMA)| + 1 <= MAX_RESPONSE_LENGTH
  {
    var rest := ids[start..];
    var group := Groups(rest, last)[0];
    var part := ids[start..i + 1];
    assert group[..|part|] == part;
    assert [] + part + group[|part|..] == group;
    JoinGrows([], part, group[|part|..], COMMA);
  }

  lemma EmptyText(group: seq<string>)
    requires group != []
    ensures Join(group, COMMA) == "" <==> group == [""]
  {
  }

  // Appends an id to the batch under construction, after a separator unless it is the first.
  method AppendId(buffer: array<char>, ghost group: seq<string>, count: nat, id: CString)
    requires Holds(buffer, Join(group, COMMA)) && count == |group| && count <= IDS_PER_BATCH
    requires |Join(group + [id], COMMA)| < buffer.Length
    modifies buffer
    ensures Holds(buffer, Join(group + [id], COMMA))
  {
    JoinExtend(group, id);
    ghost var held := Join(group, COMMA);
    if count > 0 {
      StrCat(buffer, held, [COMMA]);
      held := held + [COMMA];
    }
    StrCat(buffer, held, id);
  }

  // Sends the batch and starts an empty one.
  method Flush(buffer: array<char>, radio: Radio, ghost group: seq<string>)
    requires Holds(buffer, Join(group, COMMA))
    modifies buffer, radio
    ensures Holds(buffer, "") && radio.sent == old(radio.sent) + [Join(group, COMMA)]
  {
    var text := Text(buffer, Join(group, COMMA));
    radio.SendGroup(text);
    buffer[0] := NUL;
  }

  // The loop has taken the first `i` ids: `count` of them wait in the buffer, and with what is still to be sent
  // the log will have grown from `base` by all the batches.
  ghost predicate Collecting(ids: seq<string>, last: Option<string>, i: nat, count: nat, buffer: array<char>,
                             base: seq<string>, log: seq<string>)
    reads buffer
  {
    && count <= i <= |ids| && count < IDS_PER_BATCH && buffer.Length == MAX_RESPONSE_LENGTH
    && (if i == |ids| && last.Some? then count == 0 else count == i % IDS_PER_BATCH)
    && Holds(buffer, Join(ids[i - count..i], COMMA)) && AllSendable(Groups(ids[i - count..], last))
    && base + Texts(Groups(ids, last), COMMA) == log + Texts(Groups(ids[i - count..], last), COMMA)
  }

  // One turn of the batching loop.
  method CollectOne(ids: seq<string>, last: Option<string>, buffer: array<char>, radio: Radio, i: nat, count: nat,
                    ghost base: seq<string>)
    returns (newCount: nat)
    requires CStrings(ids) && CStrings(AsList(last)) && i < |ids|
    requires Collecting(ids, last, i, count, buffer, base, radio.sent)
    modifies buffer, radio
    ensures Collecting(ids, last, i + 1, newCount, buffer, base, radio.sent)
  {
    ghost var start := i - count;
    ghost var group := ids[start..i + 1];
    assert group == ids[start..i] + [ids[i]];
    PartFits(ids, last, start, i);
    AppendId(buffer, ids[start..i], count, ids[i]);
    newCount := count + 1;
    CountStep(i, count);
    if newCount == IDS_PER_BATCH || (i == |ids| - 1 && last.Some?) {
      CloseBatch(ids, last, buffer, radio, i, newCount, base);
      newCount := 0;
    } else {
      assert i + 1 - newCount == start;
    }
  }

  // Sends the `count` ids that wait in the buffer, and with the final batch the closing id.
  method CloseBatch(ids: seq<string>, last: Option<string>, buffer: array<char>, radio: Radio, i: nat, count: nat,
                    ghost base: seq<string>)
    requires CStrings(ids) && CStrings(AsList(last)) && 0 < count <= i + 1 <= |ids| && count <= IDS_PER_BATCH
    requires AllSendable(Groups(ids[i + 1 - count..], last))
    requires buffer.Length == MAX_RESPONSE_LENGTH && Holds(buffer, Join(ids[i + 1 - count..i + 1], COMMA))
    requires (i == |ids| - 1 && last.Some?) || (count == IDS_PER_BATCH && (i + 1) % IDS_PER_BATCH == 0)
    requires base + Texts(Groups(ids, last), COMMA) == radio.sent + Texts(Groups(ids[i + 1 - count..], last), COMMA)
    modifies buffer, radio
    ensures Collecting(ids, last, i + 1, 0, buffer, base, radio.sent)
  {
    ghost var group := ids[i + 1 - count..i + 1];
    ghost var extra := if i == |ids| - 1 then AsList(last) else [];
    ghost var later := Groups(ids[i + 1..], last);
    NextBatch(ids, last, i + 1 - count, i);
    TextsCons(group + extra, later, COMMA);
    FirstFits(group + extra, later);
    if i == |ids| - 1 && last.Some? {
      assert AsList(last)[0] == last.value;
      AppendId(buffer, group, count, last.value);
      group := group + [last.value];
    } else {
      assert group + [] == group;
    }
    RegroupMiddle(radio.sent, Join(group, COMMA), Texts(later, COMMA));
    Flush(buffer, radio, group);
    assert ids[i + 1..i + 1] == [] && Join([], COMMA) == "";
  }

  lemma FirstFits(group: seq<string>, later: seq<seq<string>>)
    requires AllSendable([group] + later)
    ensures |Join(group, COMMA)| + 1 <= MAX_RESPONSE_LENGTH && AllSendable(later)
  {
    assert ([group] + later)[0] == group && ([group] + later)[1..] == later;
    assert forall i :: 0 <= i < |later| ==> later[i] == ([group] + later)[i + 1];
  }

  lemma CountStep(i: nat, count: nat)
    requires count == i % IDS_PER_BATCH
    ensures (i + 1) % IDS_PER_BATCH == if count + 1 == IDS_PER_BATCH then 0 else count + 1
  {
  }

  // After the loop a waiting batch is sent unless it is an empty string.
  lemma Collected(ids: seq<string>, last: Option<string>, count: nat, buffer: array<char>,
                  base: seq<string>, log: seq<string>)
    requires ids != [] && Collecting(ids, last, |ids|, count, buffer, base, log)
    ensures var tail := Join(ids[|ids| - count..], COMMA);
      && Holds(buffer, tail) && (tail != "" <==> buffer[0] != NUL)
      && base + Batches(ids, last) == if tail != "" && count > 0 then log + [tail] else log
  {
    var rest := ids[|ids| - count..];
    assert ids[|ids| - count..|ids|] == rest;
    var tail := Join(rest, COMMA);
    assert tail != "" ==> buffer[0] == buffer[..|tail|][0] == tail[0] && tail[0] in tail;
    TailSent(ids, last, count, base, log);
  }

  lemma TailSent(ids: seq<string>, last: Option<string>, count: nat, base: seq<string>, log: seq<string>)
    requires ids != [] && count <= |ids| && count < IDS_PER_BATCH
    requires if last.Some? then count == 0 else count == |ids| % IDS_PER_BATCH
    requires base + Texts(Groups(ids, last), COMMA) == log + Texts(Groups(ids[|ids| - count..], last), COMMA)
    ensures var tail := Join(ids[|ids| - count..], COMMA);
      base + Batches(ids, last) == if tail != "" && count > 0 then log + [tail] else log
  {
    var rest := ids[|ids| - count..];
    if count > 0 {
      assert rest + [] == rest;
      var tail := Join(rest, COMMA);
      assert Texts(Groups(rest, last), COMMA) == [tail];
      EmptyText(rest);
      GroupsKeepIds(ids, last);
      WithoutLast(base, Texts(Groups(ids, last), COMMA), log, tail);
    } else {
      assert log + [] == log;
    }
  }

  lemma WithoutLast(base: seq<string>, texts: seq<string>, log: seq<string>, tail: string)
    requires texts != [] && base + texts == log + [tail]
    ensures base + texts[..|texts| - 1] == log
  {
    assert (base + texts)[..|base + texts| - 1] == base + texts[..|texts| - 1];
    assert (log + [tail])[..|log|] == log;
  }

  // The whole batching loop over a non-empty list.
  method SendBatches(ids: seq<string>, last: Option<string>, radio: Radio)
    requires ids != [] && CStrings(ids) && CStrings(AsList(last)) && AllSendable(Groups(ids, last))
    modifies radio
    ensures radio.sent == old(radio.sent) + Batches(ids, last)
  {
    var buffer := new char[MAX_RESPONSE_LENGTH];
    buffer[0] := NUL;
    var count: nat := 0;
    ghost var base := radio.sent;
    assert ids[0..] == ids && ids[0..0] == [];
    for i := 0 to |ids|
      invariant Collecting(ids, last, i, count, buffer, base, radio.sent)
    {
      count := CollectOne(ids, last, buffer, radio, i, count, base);
    }
    Collected(ids, last, count, buffer, base, radio.sent);
    if buffer[0] != NUL && count > 0 {
      var text := Text(buffer, Join(ids[|ids| - count..], COMMA));
      radio.SendGroup(text);
    }
  }

  // ----- What the batches say -----

  function SplitAll(texts: seq<string>): (r: seq<seq<string>>)
    ensures |r| == |texts| && forall i :: 0 <= i < |texts| ==> r[i] == Split(texts[i], COMMA)
  {
    seq(|texts|, i requires 0 <= i < |texts| => Split(texts[i], COMMA))
  }

  predicate CommaFree(ids: seq<string>) {
    forall i :: 0 <= i < |ids| ==> COMMA !in ids[i]
  }

  // Splitting the text of every batch splits every id in it.
  lemma {:induction false} SplitTexts(groups: seq<seq<string>>)
    requires forall i :: 0 <= i < |groups| ==> groups[i] != []
    ensures Concat(SplitAll(Texts(groups, COMMA))) == Concat(SplitAll(Concat(groups)))
  {
    if groups == [] {
      assert SplitAll(Texts([], COMMA)) == [] && SplitAll(Concat([])) == [];
    } else {
      var g, rest := groups[0], groups[1..];
      SplitTexts(rest);
      SplitText(g);
      assert SplitAll(Texts(groups, COMMA)) == [Split(Join(g, COMMA), COMMA)] + SplitAll(Texts(rest, COMMA));
      SplitAllAppend(g, Concat(rest));
    }
  }

  lemma SplitText(group: seq<string>)
    requires group != []
    ensures Split(Join(group, COMMA), COMMA) == Concat(SplitAll(group))
  {
    SplitOfJoin(group, COMMA);
    assert SplitAll(group) == seq(|group|, i requires 0 <= i < |group| => Split(group[i], COMMA));
  }

  lemma SplitAllAppend(a: seq<string>, b: seq<string>)
    ensures Concat(SplitAll(a + b)) == Concat(SplitAll(a)) + Concat(SplitAll(b))
  {
    assert SplitAll(a + b) == SplitAll(a) + SplitAll(b);
    ConcatAppend(SplitAll(a), SplitAll(b));
  }

  lemma {:induction false} SplitSingle(s: string)
    ensures CommaFree(Split(s, COMMA))
    ensures COMMA !in s ==> Split(s, COMMA) == [s]
    decreases |s|
  {
    var n := Run(s, COMMA);
    if n == |s| {
      assert s[..n] == s;
    } else {
      SplitSingle(s[n + 1..]);
      assert s[n] in s;
    }
  }

  lemma {:induction false} SplitPieces(ids: seq<string>)
    ensures CommaFree(Concat(SplitAll(ids)))
    ensures CommaFree(ids) ==> Concat(SplitAll(ids)) == ids
  {
    if ids != [] {
      SplitPieces(ids[1..]);
      SplitSingle(ids[0]);
      assert SplitAll(ids)[1..] == SplitAll(ids[1..]);
      assert CommaFree(ids) ==> CommaFree(ids[1..]) && [ids[0]] + ids[1..] == ids;
    }
  }

  lemma {:induction false} LastGroup<T>(ids: seq<T>, last: Option<T>)
    requires last.None? && |ids| % IDS_PER_BATCH == 1
    ensures var groups := Groups(ids, last);
      groups != [] && Concat(groups[..|groups| - 1]) == ids[..|ids| - 1]
    decreases |ids|
  {
    if |ids| <= IDS_PER_BATCH {
      assert Groups(ids, last)[..0] == [];
    } else {
      var front, rest := ids[..IDS_PER_BATCH], ids[IDS_PER_BATCH..];
      assert |rest| % IDS_PER_BATCH == 1;
      LastGroup(rest, last);
      var tail := Groups(rest, last);
      assert ([front] + tail)[..|tail|] == [front] + tail[..|tail| - 1];
      assert ids[..|ids| - 1] == front + rest[..|rest| - 1];
    }
  }

  // Splitting all batches gives the collected ids in order, then `last` once: exactly when no id contains the
  // separator and the tail is not a lone empty id.
  lemma BatchesSayTheIds(ids: seq<string>, last: Option<string>)
    requires ids != []
    ensures Concat(SplitAll(Batches(ids, last))) == ids + AsList(last)
       <==> CommaFree(ids + AsList(last)) && !TailLost(ids, last)
  {
    if TailLost(ids, last) {
      LostTailSays(ids, last);
    } else {
      GroupsKeepIds(ids, last);
      SplitTexts(Groups(ids, last));
      SplitPieces(ids + AsList(last));
    }
  }

  lemma LostTailSays(ids: seq<string>, last: Option<string>)
    requires ids != [] && TailLost(ids, last)
    ensures Concat(SplitAll(Batches(ids, last))) != ids + AsList(last)
  {
    var groups := Groups(ids, last);
    var front, said := groups[..|groups| - 1], ids[..|ids| - 1];
    GroupsKeepIds(ids, last);
    LastGroup(ids, last);
    assert Texts(front, COMMA) == Batches(ids, last);
    SplitTexts(front);
    SplitPieces(said);
    assert ids + AsList(last) == ids;
    if !CommaFree(said) {
      var i :| 0 <= i < |said| && COMMA in said[i];
      assert COMMA in ids[i];
    }
  }

  // The largest batch, 26 ids of 36 characters and `last`, leaves room in the response buffer for the NUL.
  lemma {:induction false} BatchesFit(ids: seq<string>, last: Option<string>)
    requires ShortIds(ids) && ShortIds(AsList(last))
    ensures AllSendable(Groups(ids, last))
    decreases |ids|
  {
    if ids != [] {
      if |ids| <= IDS_PER_BATCH {
        GroupFits(ids + AsList(last));
      } else {
        GroupFits(ids[..IDS_PER_BATCH]);
        BatchesFit(ids[IDS_PER_BATCH..], last);
      }
    }
  }

  lemma GroupFits(group: seq<string>)
    requires ShortIds(group) && group != [] && |group| <= IDS_PER_BATCH + 1
    ensures |Join(group, COMMA)| + 1 <= MAX_RESPONSE_LENGTH
  {
    JoinBound(group);
  }

  // ----- How large a batch is -----

  // Batch k holds the 26 ids from 26 * k on, the last batch what is left of them and the closing id.
  lemma {:induction false} BatchHolds<T>(ids: seq<T>, last: Option<T>, k: nat)
    ensures |Groups(ids, last)| == (|ids| + 25) / 26
    ensures k < |Groups(ids, last)| ==> 26 * k < |ids|
    ensures k < |Groups(ids, last)| ==>
      Groups(ids, last)[k] == if 26 * (k + 1) < |ids| then ids[26 * k..26 * (k + 1)] else ids[26 * k..] + AsList(last)
    decreases |ids|
  {
    if |ids| > 26 {
      var rest := ids[26..];
      BatchHolds(rest, last, if k > 0 then k - 1 else 0);
      if 0 < k < |Groups(ids, last)| {
        assert Groups(ids, last)[k] == Groups(rest, last)[k - 1];
        assert rest[26 * (k - 1)..] == ids[26 * k..];
        assert 26 * k < |rest| ==> rest[26 * (k - 1)..26 * k] == ids[26 * k..26 * (k + 1)];
      }
    }
  }

  // With ids of 36 characters a string of n of them fits exactly up to 27, a full batch and the closing id.
  lemma LongestBatch(group: seq<string>)
    requires group != [] && forall i :: 0 <= i < |group| ==> |group[i]| == 36
    ensures AllSendable([group]) <==> |group| <= 27
  {
    JoinOfEqual(group, 36);
    assert [group][0] == group;
    assert AllSendable([group]) <==> |Join(group, COMMA)| + 1 <= MAX_RESPONSE_LENGTH;
  }

  lemma {:induction false} JoinOfEqual(group: seq<string>, n: nat)
    requires group != [] && forall i :: 0 <= i < |group| ==> |group[i]| == n
    ensures |Join(group, ',')| == (n + 1) * |group| - 1
  {
    if |group| > 1 {
      JoinOfEqual(group[1..], n);
      assert (n + 1) * |group| == (n + 1) * |group[1..]| + (n + 1);
    }
  }

  // What is sent is the batches joined by commas, and the last only if it is not empty.
  lemma BatchTexts(ids: seq<string>, last: Option<string>)
    requires ids != []
    ensures var groups := Groups(ids, last);
      var texts := Texts(groups, ',');
      Batches(ids, last) == if last.None? && groups[|groups| - 1] == [""] then texts[..|texts| - 1] else texts
  {
    GroupsKeepIds(ids, last);
    if last.None? {
      LoneEmptyId(ids);
    }
  }

  lemma LoneEmptyId(ids: seq<string>)
    requires ids != []
    ensures Groups(ids, None) != []
    ensures TailLost(ids, None) <==> Groups(ids, None)[|Groups(ids, None)| - 1] == [""]
  {
    var n := (|ids| + 25) / 26 - 1;
    BatchHolds(ids, None, n);
    var tail := ids[26 * n..];
    assert tail + AsList(None) == tail && |tail| == |ids| - 26 * n;
    assert |ids| % 26 == 1 <==> |tail| == 1;
    assert tail[|tail| - 1] == ids[|ids| - 1];
    assert tail == [""] <==> |tail| == 1 && tail[0] == "";
  }
}
