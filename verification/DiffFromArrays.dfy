/** diff_from_arrays: the backward walk over the pending array that removes and resends as it goes. */
module DiffFromArrays {
  import opened Words
  import opened Sequences
  import opened CText
  import opened Messages
  import opened InterpolationSearch
  import opened DynamicArrays
  import opened AckDiff
  import opened Radios

  ghost predicate AllHaveContent(s: seq<Element>) {
    forall i :: 0 <= i < |s| ==> s[i].Msg? && s[i].content.Some?
  }

  function MarshalAll(s: seq<Element>): (r: seq<CString>)
    requires AllHaveContent(s)
    ensures |r| == |s| && forall i :: 0 <= i < |s| ==> r[i] == MarshalMessage(s[i])
  {
    seq(|s|, i requires 0 <= i < |s| => MarshalMessage(s[i]))
  }

  lemma MarshalAppend(s: seq<Element>, m: Message)
    requires AllHaveContent(s) && m.content.Some?
    ensures AllHaveContent(s + [m]) && MarshalAll(s + [m]) == MarshalAll(s) + [MarshalMessage(m)]
  {
  }

  lemma {:induction false} SweepKeepsContent(s: seq<Element>, acks: seq<Word64>, clock: Clock, resending: bool)
    requires AllHaveContent(s)
    ensures AllHaveContent(Kept(s, acks, clock, resending)) && AllHaveContent(Missed(s, acks, clock))
  {
    if s != [] {
      SweepKeepsContent(s[..|s| - 1], acks, clock, resending);
    }
  }

  // What the sweep of a pending list hands to the radio.
  function Resends(s: seq<Element>, acks: seq<Word64>, clock: Clock): seq<CString>
    requires AllHaveContent(s)
  {
    SweepKeepsContent(s, acks, clock, true);
    MarshalAll(Missed(s, acks, clock))
  }

  // Removes an element with the examined element's id: that element itself, if the ids are distinct.
  method Drop(first: DynamicArray, id: Word64, ghost i: nat) returns (ghost at: nat)
    requires first.Valid() && first.kind.OfMessages? && AllHaveContent(first.Contents())
    requires i < first.size && first.data[i].id == id
    modifies first, first.data
    ensures first.Valid() && first.data == old(first.data) && AllHaveContent(first.Contents())
    ensures at < |old(first.Contents())| && old(first.Contents())[at].id == id
    ensures first.Contents() == Without(old(first.Contents()), at)
    ensures DistinctIds(old(first.Contents())) ==> at == i
  {
    ghost var s := first.Contents();
    assert s[i].id == id;
    var removed := first.RemoveById(id, true, true);
    if DistinctIds(s) {
      ScanFindsTheOnlyOne(s, id, i);
    }
    at := removed;
    WithoutMembers(s, at);
  }

  lemma WithoutMembers(s: seq<Element>, at: nat)
    requires at < |s|
    ensures |Without(s, at)| == |s| - 1
    ensures forall k :: 0 <= k < |s| - 1 ==> Without(s, at)[k] == s[if k < at then k else k + 1]
  {
  }

  // One turn of the walk: looks the element at `i` up among the acknowledged ids, resends it if it has expired,
  // and removes one with its id unless it stays pending.
  method Examine(first: DynamicArray, second: DynamicArray, radio: Radio?, now: int, i: nat)
    returns (missed: bool, ghost at: int)
    requires first.Valid() && first.kind.OfMessages? && AllHaveContent(first.Contents()) && i < first.size
    requires second.Valid() && second.kind.OfIds?
    requires first != second && first.data != second.data
    modifies first, first.data, (if radio == null then {} else {radio})
    ensures first.Valid() && first.data == old(first.data) && AllHaveContent(first.Contents())
    ensures var s, acks := old(first.Contents()), Ids(old(second.Contents()));
      && missed == Expires(s[i], acks, now)
      && Removed(s, i, acks, now, radio != null, at, first.Contents())
      && (radio != null ==> radio.sent == old(radio.sent) + if missed then [MarshalMessage(s[i])] else [])
  {
    ghost var ids := Ids(second.Contents());
    var id := first.data[i].id;
    var found := second.RemoveById(id, true, false);
    assert found == -1 <==> id !in ids by {
      assert Present(second.Contents(), id) <==> id in ids;
    }
    missed, at := false, -1;
    if found == -1 {
      if !CheckMessageTimeout(first.data[i], now, 0) {
        return;
      }
      missed := true;
      if radio != null {
        radio.SendGroup(MarshalMessage(first.data[i]));
      } else {
        return;
      }
    }
    at := Drop(first, id, i);
  }

  // What one turn leaves of the array: all of it if the element stays, and otherwise one element less, which has
  // the same id.
  ghost predicate Removed(s: seq<Element>, i: nat, acks: seq<Word64>, now: int, resending: bool, at: int,
                          contents: seq<Element>)
    requires i < |s|
  {
    if Stays(s[i], acks, now, resending) then contents == s
    else 0 <= at < |s| && s[at].id == s[i].id && contents == Without(s, at) && (DistinctIds(s) ==> at == i)
  }

  // ----- The walk over any array -----

  // A message that was resent: one of the list, unacknowledged, and expired at some reading.
  ghost predicate Lost(m: Element, s: seq<Element>, acks: seq<Word64>, clock: Clock) {
    m in s && m.id !in acks && exists i :: 0 <= i < |s| && TimedOut(m, clock(i))
  }

  // Nothing acknowledged is left behind the index, nothing is made up, and no unacknowledged id has vanished
  // without a resend.
  ghost predicate Walked(s: seq<Element>, acks: seq<Word64>, clock: Clock, i: nat, contents: seq<Element>,
                         lost: seq<Element>)
  {
    && (forall k :: i <= k < |contents| ==> contents[k].id !in acks)
    && (forall m :: m in contents ==> m in s)
    && (forall m :: m in lost ==> Lost(m, s, acks, clock))
    && (forall k :: 0 <= k < |s| ==> s[k].id in acks || Present(contents, s[k].id) || Present(lost, s[k].id))
  }

  lemma WalkedFurther(s: seq<Element>, acks: seq<Word64>, clock: Clock, resending: bool, i: nat, before: seq<Element>,
                      lost: seq<Element>, at: int, after: seq<Element>)
    requires i < |before| && i < |s| && Walked(s, acks, clock, i + 1, before, lost)
    requires Removed(before, i, acks, clock(i), resending, at, after)
    ensures Walked(s, acks, clock, i, after, if Expires(before[i], acks, clock(i)) then lost + [before[i]] else lost)
  {
    var m := before[i];
    var now := if Expires(m, acks, clock(i)) then lost + [m] else lost;
    assert m in s;
    PresentGrows(lost, m);
    if Stays(m, acks, clock(i), resending) {
      assert after == before;
    } else {
      WithoutMembers(before, at);
      forall k | 0 <= k < |s|
        ensures s[k].id in acks || Present(after, s[k].id) || Present(now, s[k].id)
      {
        if Present(before, s[k].id) && s[k].id != m.id {
          PresentWithout(before, at, s[k].id);
        }
      }
    }
  }

  lemma PresentGrows(s: seq<Element>, m: Element)
    ensures Present(s + [m], m.id)
    ensures forall id :: Present(s, id) ==> Present(s + [m], id)
  {
    assert (s + [m])[|s|] == m;
    forall id | Present(s, id)
      ensures Present(s + [m], id)
    {
      var i :| 0 <= i < |s| && s[i].id == id;
      assert (s + [m])[i] == s[i];
    }
  }

  lemma PresentWithout(s: seq<Element>, at: nat, id: Word64)
    requires at < |s| && Present(s, id) && s[at].id != id
    ensures Present(Without(s, at), id)
  {
    var i :| 0 <= i < |s| && s[i].id == id;
    assert Without(s, at)[if i < at then i else i - 1] == s[i];
  }

  // ----- The walk over distinct ids -----

  // What one turn of the walk does to the two halves of the outcome.
  lemma SweepStep(s: seq<Element>, acks: seq<Word64>, clock: Clock, resending: bool, i: nat)
    requires i < |s|
    ensures Kept(s[..i + 1], acks, clock, resending)
         == Kept(s[..i], acks, clock, resending) + if Stays(s[i], acks, clock(i), resending) then [s[i]] else []
    ensures Missed(s[..i + 1], acks, clock)
         == (if Expires(s[i], acks, clock(i)) then [s[i]] else []) + Missed(s[..i], acks, clock)
  {
    assert s[..i + 1][..i] == s[..i];
  }

  lemma WithoutFront(s: seq<Element>, i: nat)
    requires i < |s| && DistinctIds(s)
    ensures Without(s, i)[..i] == s[..i] && Without(s, i)[i..] == s[i + 1..] && DistinctIds(Without(s, i))
  {
    var r := Without(s, i);
    assert forall k :: 0 <= k < |r| ==> r[k] == if k < i then s[k] else s[k + 1];
  }

  // The walk has reached index `i`: everything behind it has its outcome, everything up to it is untouched.
  ghost predicate Swept(s: seq<Element>, acks: seq<Word64>, clock: Clock, resending: bool, i: nat,
                        contents: seq<Element>, lost: seq<Element>)
    requires i <= |s|
  {
    && i <= |contents| && contents[..i] == s[..i]
    && Kept(s, acks, clock, resending) == Kept(s[..i], acks, clock, resending) + contents[i..]
    && DistinctIds(contents)
    && Missed(s, acks, clock) == lost + Missed(s[..i], acks, clock)
  }

  lemma SweptFurther(s: seq<Element>, acks: seq<Word64>, clock: Clock, resending: bool, i: nat, before: seq<Element>,
                     lost: seq<Element>, at: int, after: seq<Element>)
    requires i < |s| && Swept(s, acks, clock, resending, i + 1, before, lost)
    requires Removed(before, i, acks, clock(i), resending, at, after)
    ensures before[i] == s[i]
    ensures Swept(s, acks, clock, resending, i, after, if Expires(s[i], acks, clock(i)) then lost + [s[i]] else lost)
  {
    assert before[i] == before[..i + 1][i];
    assert before[..i] == before[..i + 1][..i] && s[..i] == s[..i + 1][..i];
    WithoutFront(before, i);
    assert before[i..] == [s[i]] + before[i + 1..];
    SweptKept(s, acks, clock, resending, i, before[i + 1..]);
    SweptMissed(s, acks, clock, i, lost);
  }

  lemma SweptKept(s: seq<Element>, acks: seq<Word64>, clock: Clock, resending: bool, i: nat, behind: seq<Element>)
    requires i < |s|
    ensures Kept(s[..i + 1], acks, clock, resending) + behind
         == Kept(s[..i], acks, clock, resending)
            + if Stays(s[i], acks, clock(i), resending) then [s[i]] + behind else behind
  {
    SweepStep(s, acks, clock, resending, i);
    RegroupMiddle(Kept(s[..i], acks, clock, resending), s[i], behind);
  }

  lemma SweptMissed(s: seq<Element>, acks: seq<Word64>, clock: Clock, i: nat, lost: seq<Element>)
    requires i < |s|
    ensures lost + Missed(s[..i + 1], acks, clock)
         == (if Expires(s[i], acks, clock(i)) then lost + [s[i]] else lost) + Missed(s[..i], acks, clock)
  {
    SweepStep(s, acks, clock, true, i);
    RegroupMiddle(lost, s[i], Missed(s[..i], acks, clock));
  }

  // ----- The walk -----

  ghost predicate Progress(s: seq<Element>, acks: seq<Word64>, clock: Clock, resending: bool, i: nat,
                           contents: seq<Element>, lost: seq<Element>)
  {
    && i <= |s| && i <= |contents| && Walked(s, acks, clock, i, contents, lost)
    && (DistinctIds(s) ==> Swept(s, acks, clock, resending, i, contents, lost))
  }

  lemma ProgressStart(s: seq<Element>, acks: seq<Word64>, clock: Clock, resending: bool)
    ensures Progress(s, acks, clock, resending, |s|, s, [])
  {
    assert s[..|s|] == s && s[|s|..] == [];
    assert [] + Missed(s, acks, clock) == Missed(s, acks, clock);
  }

  lemma ProgressFurther(s: seq<Element>, acks: seq<Word64>, clock: Clock, resending: bool, i: nat,
                        before: seq<Element>, lost: seq<Element>, at: int, after: seq<Element>)
    requires Progress(s, acks, clock, resending, i + 1, before, lost)
    requires Removed(before, i, acks, clock(i), resending, at, after)
    ensures Progress(s, acks, clock, resending, i, after,
                     if Expires(before[i], acks, clock(i)) then lost + [before[i]] else lost)
  {
    WalkedFurther(s, acks, clock, resending, i, before, lost, at, after);
    if DistinctIds(s) {
      SweptFurther(s, acks, clock, resending, i, before, lost, at, after);
    }
  }

  lemma SweptEnd(s: seq<Element>, acks: seq<Word64>, clock: Clock, resending: bool,
                 contents: seq<Element>, lost: seq<Element>)
    requires Swept(s, acks, clock, resending, 0, contents, lost)
    ensures contents == Kept(s, acks, clock, resending) && lost == Missed(s, acks, clock)
  {
    assert s[..0] == [] && contents[0..] == contents;
    assert lost + [] == lost && [] + contents == contents;
  }

  // One turn, as a step from index i + 1 to index i. The radio had sent `base` when the walk began.
  method Turn(first: DynamicArray, second: DynamicArray, radio: Radio?, clock: Clock, i: nat,
              ghost s: seq<Element>, ghost base: seq<string>, ghost lost: seq<Element>)
    returns (missed: bool, ghost nowLost: seq<Element>)
    requires first.Valid() && first.kind.OfMessages? && AllHaveContent(first.Contents())
    requires second.Valid() && second.kind.OfIds?
    requires first != second && first.data != second.data
    requires Progress(s, Ids(second.Contents()), clock, radio != null, i + 1, first.Contents(), lost)
    requires AllHaveContent(lost) && (radio != null ==> radio.sent == base + MarshalAll(lost))
    modifies first, first.data, (if radio == null then {} else {radio})
    ensures first.Valid() && first.data == old(first.data) && AllHaveContent(first.Contents())
    ensures Progress(s, Ids(second.Contents()), clock, radio != null, i, first.Contents(), nowLost)
    ensures |nowLost| == |lost| + (if missed then 1 else 0)
    ensures AllHaveContent(nowLost) && (radio != null ==> radio.sent == base + MarshalAll(nowLost))
  {
    ghost var before := first.Contents();
    ghost var at: int;
    missed, at := Examine(first, second, radio, clock(i), i);
    ProgressFurther(s, Ids(second.Contents()), clock, radio != null, i, before, lost, at, first.Contents());
    nowLost := if missed then lost + [before[i]] else lost;
    LogGrows(base, lost, before[i]);
  }

  lemma LogGrows(base: seq<string>, lost: seq<Element>, m: Message)
    requires AllHaveContent(lost) && m.content.Some?
    ensures AllHaveContent(lost + [m])
    ensures base + MarshalAll(lost + [m]) == base + MarshalAll(lost) + [MarshalMessage(m)]
    ensures base + MarshalAll(lost) + [] == base + MarshalAll(lost)
  {
    MarshalAppend(lost, m);
  }

  // On any array nothing acknowledged stays, only expired unacknowledged messages are resent, and no
  // unacknowledged id vanishes without a resend. On distinct ids the outcome is exact; on repeated ones a removal
  // may take another copy than the one examined. A NULL content would be undefined in the marshalling.
  method Diff(first: DynamicArray, second: DynamicArray, radio: Radio?, clock: Clock)
    returns (missed: nat, ghost lost: seq<Element>)
    requires first.Valid() && first.kind.OfMessages? && AllHaveContent(first.Contents())
    requires second.Valid() && second.kind.OfIds?
    requires first != second && first.data != second.data
    modifies first, first.data, (if radio == null then {} else {radio})
    ensures first.Valid() && first.data == old(first.data) && AllHaveContent(first.Contents())
    ensures missed == |lost| && AllHaveContent(lost)
    ensures radio != null ==> radio.sent == old(radio.sent) + MarshalAll(lost)
    ensures Walked(old(first.Contents()), Ids(old(second.Contents())), clock, 0, first.Contents(), lost)
    ensures DistinctIds(old(first.Contents())) ==>
      var s, acks := old(first.Contents()), Ids(old(second.Contents()));
        first.Contents() == Kept(s, acks, clock, radio != null) && lost == Missed(s, acks, clock)
  {
    ghost var s := first.Contents();
    ghost var base := if radio == null then [] else radio.sent;
    missed, lost := 0, [];
    var i := first.size;
    ProgressStart(s, Ids(second.Contents()), clock, radio != null);
    while i > 0
      invariant 0 <= i && first.Valid() && first.data == old(first.data) && AllHaveContent(first.Contents())
      invariant Progress(s, Ids(second.Contents()), clock, radio != null, i, first.Contents(), lost)
      invariant missed == |lost| && AllHaveContent(lost)
      invariant radio != null ==> radio.sent == base + MarshalAll(lost)
    {
      i := i - 1;
      var expired;
      expired, lost := Turn(first, second, radio, clock, i, s, base, lost);
      if expired {
        missed := missed + 1;
      }
    }
    if DistinctIds(s) {
      SweptEnd(s, Ids(second.Contents()), clock, radio != null, first.Contents(), lost);
    }
  }
}
