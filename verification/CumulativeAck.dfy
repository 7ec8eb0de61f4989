/** The cumulative-acknowledgement path of utils.c: the shared block of ids and its two sweeps. */
module CumulativeAck {
  import opened Words
  import opened CText
  import opened Radios
  import opened Batching
  import opened StringManip
  import opened MissedIds

  // realloc to one slot more, and a copy of the id in it.
  method Append(block: array<CString>, id: CString) returns (bigger: array<CString>)
    ensures fresh(bigger) && bigger[..] == block[..] + [id]
  {
    bigger := new CString[block.Length + 1];
    forall i | 0 <= i < block.Length {
      bigger[i] := block[i];
    }
    bigger[block.Length] := id;
    assert bigger[..block.Length] == block[..];
  }

  // The ids collected since the last heartbeat: message_ids and num_message_ids. The block has no spare slots.
  class MessageIds {
    var block: array<CString>
    var num: nat

    ghost predicate Valid()
      reads this
    {
      block.Length == num
    }

    ghost function Contents(): seq<string>
      reads this, block
    {
      block[..]
    }

    constructor ()
      ensures Valid() && fresh(block) && Contents() == []
    {
      block, num := new CString[0], 0;
    }

    method Add(id: CString)
      requires Valid()
      modifies this
      ensures Valid() && fresh(block) && Contents() == old(Contents()) + [id]
    {
      block := Append(block, id);
      num := num + 1;
    }

    // Sends everything collected so far in batches that each fit the response buffer, NUL included.
    method ProcessMessageIds(radio: Radio, last: Option<CString>)
      requires Valid() && AllSendable(Groups<string>(Contents(), last))
      modifies this, radio
      ensures Valid() && (block == old(block) || fresh(block)) && Contents() == []
      ensures radio.sent == old(radio.sent) + Batches(old(Contents()), last)
    {
      if num > 0 {
        SendBatches(block[..], last, radio);
        block, num := new CString[0], 0;
      } else {
        assert radio.sent + [] == radio.sent;
      }
    }

    // The client's side: what the list was settled to by one acknowledgement string. When the last id is unknown
    // the block that is handed out as missed is the list itself.
    method ProcessMissedMessageIds(buffer: CString) returns (missed: array<CString>)
      requires Valid()
      modifies this, block
      ensures Valid()
      ensures var tokens := Split(buffer, COMMA);
        var outcome := Settle(old(Contents()), tokens);
        && missed[..] == outcome.missed && Contents() == outcome.left
        && (if tokens[|tokens| - 1] in old(Contents()) then fresh(missed) && fresh(block)
            else missed == block == old(block))
    {
      var tokens := SplitString(buffer, COMMA);
      var index := FindId(block, tokens[|tokens| - 1]);
      if index == -1 {
        return block;
      }
      missed := CollectMissed(block, index + 1, tokens);
      RemoveFirst(index + 1);
    }

    // Shifts the ids after the first `cut` down and gives the slots behind them back.
    method RemoveFirst(cut: nat)
      requires Valid() && cut <= num
      modifies this, block
      ensures Valid() && fresh(block) && Contents() == old(Contents()[cut..])
    {
      var left := num - cut;
      for i := 0 to left
        invariant Valid() && block == old(block) && num == old(num)
        invariant forall k :: 0 <= k < i ==> block[k] == old(block[k + cut])
        invariant forall k :: i <= k < num ==> block[k] == old(block[k])
      {
        block[i] := block[i + cut];
      }
      var smaller := new CString[left];
      forall i | 0 <= i < left {
        smaller[i] := block[i];
      }
      block, num := smaller, left;
    }
  }

  method FindId(list: array<CString>, id: string) returns (index: int)
    ensures index == IndexOf(list[..], id)
  {
    index := -1;
    for i := 0 to list.Length
      invariant index == -1 && id !in list[..i]
    {
      if list[i] == id {
        FirstOccurrence(list[..], id, i);
        return i;
      }
      assert list[..i + 1] == list[..i] + [list[i]];
    }
    assert list[..list.Length] == list[..];
  }

  lemma FirstOccurrence(list: seq<string>, id: string, i: nat)
    requires i < |list| && list[i] == id && id !in list[..i]
    ensures IndexOf(list, id) == i
  {
    assert list == list[..i] + list[i..];
    IndexBeyond(list[..i], list[i..], id);
  }

  // The nested loops that compare every settled id with every token.
  method CollectMissed(list: array<CString>, cut: nat, tokens: seq<string>) returns (missed: array<CString>)
    requires cut <= list.Length
    ensures fresh(missed) && missed[..] == Unacked(list[..cut], tokens)
  {
    missed := new CString[0];
    for i := 0 to cut
      invariant fresh(missed) && missed[..] == Unacked(list[..i], tokens)
    {
      var found := Named(list[i], tokens);
      if !found {
        missed := Append(missed, list[i]);
      }
      assert list[..i + 1][..i] == list[..i];
    }
  }

  method Named(id: string, tokens: seq<string>) returns (found: bool)
    ensures found <==> id in tokens
  {
    for j := 0 to |tokens|
      invariant id !in tokens[..j]
    {
      if id == tokens[j] {
        return true;
      }
      assert tokens[..j + 1] == tokens[..j] + [tokens[j]];
    }
    assert tokens[..|tokens|] == tokens;
    return false;
  }
}
