/** What one cumulative acknowledgement does to the client's list of sent ids, as a function of the list. */
module MissedIds {
  import opened Words
  import opened Sequences
  import opened CText
  import opened Batching

  // Index of the first occurrence, -1 when there is none.
  function IndexOf<T(==)>(s: seq<T>, x: T): (k: int)
    ensures -1 <= k < |s|
    ensures k == -1 <==> x !in s
    ensures k != -1 ==> s[k] == x && forall i :: 0 <= i < k ==> s[i] != x
  {
    IndexFrom(s, x, 0)
  }

  function IndexFrom<T(==)>(s: seq<T>, x: T, from: nat): (k: int)
    requires from <= |s|
    ensures k == -1 || from <= k < |s|
    ensures k == -1 ==> forall i :: from <= i < |s| ==> s[i] != x
    ensures k != -1 ==> s[k] == x && forall i :: from <= i < k ==> s[i] != x
    decreases |s| - from
  {
    if from == |s| then -1 else if s[from] == x then from else IndexFrom(s, x, from + 1)
  }

  function Unacked<T(==)>(s: seq<T>, acks: seq<T>): seq<T> {
    if s == [] then []
    else Unacked(s[..|s| - 1], acks) + if s[|s| - 1] in acks then [] else [s[|s| - 1]]
  }

  // Up to the last acknowledged id everything is settled: unacknowledged ids are reported, and all are dropped.
  // An unknown last id reports the whole list and drops nothing.
  datatype Outcome<T> = Outcome(missed: seq<T>, left: seq<T>)

  function Settle<T(==)>(mine: seq<T>, acks: seq<T>): Outcome<T>
    requires acks != []
  {
    var k := IndexOf(mine, acks[|acks| - 1]);
    if k == -1 then Outcome(mine, mine) else Outcome(Unacked(mine[..k + 1], acks), mine[k + 1..])
  }

  predicate NoneEmpty<T>(batches: seq<seq<T>>) {
    batches == [] || (batches[0] != [] && NoneEmpty(batches[1..]))
  }

  // The batches one after the other: what is reported altogether and what is left.
  function SettleAll<T(==)>(mine: seq<T>, batches: seq<seq<T>>): Outcome<T>
    requires NoneEmpty(batches)
    decreases |batches|
  {
    if batches == [] then Outcome([], mine)
    else
      var first := Settle(mine, batches[0]);
      var rest := SettleAll(first.left, batches[1..]);
      Outcome(first.missed + rest.missed, rest.left)
  }

  ghost predicate AllIn<T>(a: seq<T>, b: seq<T>) {
    forall x :: x in a ==> x in b
  }

  ghost predicate Apart<T>(a: seq<T>, b: seq<T>) {
    forall x :: x in a ==> x !in b
  }

  // The batch ends at a known id and names nothing beyond it; what comes later names only ids beyond it.
  ghost predicate Leads<T>(mine: seq<T>, batch: seq<T>, later: seq<T>) {
    && batch != []
    && var k := IndexOf(mine, batch[|batch| - 1]);
       k != -1 && AllIn(batch, mine[..k + 1]) && AllIn(later, mine[k + 1..])
  }

  // Each batch leads those after it.
  ghost predicate InOrder<T>(mine: seq<T>, batches: seq<seq<T>>)
    decreases |batches|
  {
    batches == [] ||
    (&& Leads(mine, batches[0], Concat(batches[1..]))
     && InOrder(Settle(mine, batches[0]).left, batches[1..]))
  }

  lemma {:induction false} UnackedAppend<T>(a: seq<T>, b: seq<T>, acks: seq<T>)
    ensures Unacked(a + b, acks) == Unacked(a, acks) + Unacked(b, acks)
  {
    if b == [] {
      assert a + b == a;
    } else {
      assert (a + b)[..|a + b| - 1] == a + b[..|b| - 1];
      UnackedAppend(a, b[..|b| - 1], acks);
    }
  }

  lemma {:induction false} UnackedSame<T>(s: seq<T>, acks: seq<T>, others: seq<T>)
    requires forall x :: x in s ==> (x in acks <==> x in others)
    ensures Unacked(s, acks) == Unacked(s, others)
  {
    if s != [] {
      UnackedSame(s[..|s| - 1], acks, others);
    }
  }

  // Exactly the ids not named, in the order they were sent.
  lemma {:induction false} UnackedMembers<T>(s: seq<T>, acks: seq<T>)
    ensures forall x :: x in Unacked(s, acks) <==> x in s && x !in acks
    ensures |Unacked(s, acks)| <= |s|
  {
    if s != [] {
      assert s == s[..|s| - 1] + [s[|s| - 1]];
      UnackedMembers(s[..|s| - 1], acks);
    }
  }

  lemma IndexBeyond<T>(front: seq<T>, back: seq<T>, x: T)
    requires x in back && x !in front
    ensures IndexOf(front + back, x) == |front| + IndexOf(back, x)
  {
    var s := front + back;
    var j := IndexOf(back, x);
    assert s[|front| + j] == x;
    assert forall i :: 0 <= i < |front| ==> s[i] == front[i];
    assert forall i :: 0 <= i < j ==> s[|front| + i] == back[i];
  }

  lemma DistinctTail<T>(s: seq<T>, n: nat)
    requires Distinct(s) && n <= |s|
    ensures Distinct(s[n..]) && Apart(s[..n], s[n..])
  {
  }

  lemma CutTwice<T>(s: seq<T>, a: nat, b: nat)
    requires a + b <= |s|
    ensures s[..a + b] == s[..a] + s[a..][..b] && s[a + b..] == s[a..][b..]
  {
  }

  lemma IndexInTail<T>(s: seq<T>, n: nat, x: T)
    requires n <= |s| && x in s[n..] && x !in s[..n]
    ensures IndexOf(s, x) == n + IndexOf(s[n..], x)
  {
    assert s == s[..n] + s[n..];
    IndexBeyond(s[..n], s[n..], x);
  }

  // A known last id cuts the list at its first occurrence: what follows it is left, and of the rest exactly the
  // ids not named are reported, none of which is left if the ids are distinct. An unknown one reports everything
  // and leaves everything.
  lemma SettleCuts<T>(mine: seq<T>, acks: seq<T>)
    requires acks != []
    ensures var last := acks[|acks| - 1];
      var outcome := Settle(mine, acks);
      var cut := |mine| - |outcome.left|;
      if last in mine
      then && 0 < cut <= |mine| && mine[cut - 1] == last && last !in mine[..cut - 1] && outcome.left == mine[cut..]
           && (forall x :: x in outcome.missed <==> x in mine[..cut] && x !in acks)
           && (Distinct(mine) ==> Apart(outcome.missed, outcome.left))
      else outcome == Outcome(mine, mine)
  {
    var k := IndexOf(mine, acks[|acks| - 1]);
    if k != -1 {
      UnackedMembers(mine[..k + 1], acks);
      if Distinct(mine) {
        DistinctTail(mine, k + 1);
      }
    }
  }

  // Settling consecutive batches is settling their concatenation.
  lemma {:induction false} BatchesCompose<T>(mine: seq<T>, batches: seq<seq<T>>)
    requires batches != [] && Distinct(mine) && InOrder(mine, batches)
    requires NoneEmpty(batches)
    ensures Concat(batches) != [] && SettleAll(mine, batches) == Settle(mine, Concat(batches))
    decreases |batches|
  {
    var batch, later := batches[0], batches[1..];
    if later == [] {
      OneBatch(mine, batches);
    } else {
      TailOfBatches(mine, batch);
      BatchesCompose(Settle(mine, batch).left, later);
      TwoBatches(mine, batch, Concat(later), IndexOf(mine, batch[|batch| - 1]));
      Glue(mine, batches, Concat(later));
    }
  }

  lemma TailOfBatches<T>(mine: seq<T>, batch: seq<T>)
    requires Distinct(mine) && batch != [] && IndexOf(mine, batch[|batch| - 1]) != -1
    ensures var k := IndexOf(mine, batch[|batch| - 1]);
      Distinct(Settle(mine, batch).left) && Apart(mine[..k + 1], mine[k + 1..])
  {
    DistinctTail(mine, IndexOf(mine, batch[|batch| - 1]) + 1);
  }

  // Gluing the first batch to the others, once both sides are known.
  lemma Glue<T>(mine: seq<T>, batches: seq<seq<T>>, rest: seq<T>)
    requires batches != [] && NoneEmpty(batches) && rest != [] && rest == Concat(batches[1..])
    requires var first := Settle(mine, batches[0]);
      var second := Settle(first.left, rest);
      && SettleAll(first.left, batches[1..]) == second
      && Settle(mine, batches[0] + rest) == Outcome(first.missed + second.missed, second.left)
    ensures Concat(batches) != [] && SettleAll(mine, batches) == Settle(mine, Concat(batches))
  {
    FirstAndRest(mine, batches);
  }

  lemma FirstAndRest<T>(mine: seq<T>, batches: seq<seq<T>>)
    requires batches != [] && NoneEmpty(batches)
    ensures Concat(batches) == batches[0] + Concat(batches[1..])
    ensures var first := Settle(mine, batches[0]);
      var rest := SettleAll(first.left, batches[1..]);
      SettleAll(mine, batches) == Outcome(first.missed + rest.missed, rest.left)
  {
  }

  lemma OneBatch<T>(mine: seq<T>, batches: seq<seq<T>>)
    requires |batches| == 1 && batches[0] != []
    ensures Concat(batches) == batches[0] && SettleAll(mine, batches) == Settle(mine, batches[0])
  {
    var first := Settle(mine, batches[0]);
    assert first.missed + [] == first.missed;
  }

  lemma TwoBatches<T>(mine: seq<T>, batch: seq<T>, rest: seq<T>, k: nat)
    requires batch != [] && rest != [] && Leads(mine, batch, rest)
    requires IndexOf(mine, batch[|batch| - 1]) == k && Apart(mine[..k + 1], mine[k + 1..])
    ensures var first := Settle(mine, batch);
      var second := Settle(first.left, rest);
      Settle(mine, batch + rest) == Outcome(first.missed + second.missed, second.left)
  {
    var front, back := mine[..k + 1], mine[k + 1..];
    var last := rest[|rest| - 1];
    assert last in back && last !in front;
    var j := IndexOf(back, last);
    IndexInTail(mine, k + 1, last);
    UnackedBoth(front, back, j + 1, batch, rest);
    SettleBeyond(mine, batch + rest, k + 1, j);
  }

  lemma SettleBeyond<T>(mine: seq<T>, acks: seq<T>, n: nat, j: nat)
    requires acks != [] && n <= |mine| && IndexOf(mine, acks[|acks| - 1]) == n + j && n + j < |mine|
    ensures Settle(mine, acks) == Outcome(Unacked(mine[..n] + mine[n..][..j + 1], acks), mine[n..][j + 1..])
  {
    CutTwice(mine, n, j + 1);
  }

  lemma UnackedBoth<T>(front: seq<T>, back: seq<T>, n: nat, batch: seq<T>, rest: seq<T>)
    requires n <= |back| && AllIn(batch, front) && AllIn(rest, back) && Apart(front, back)
    ensures Unacked(front + back[..n], batch + rest) == Unacked(front, batch) + Unacked(back[..n], rest)
  {
    UnackedAppend(front, back[..n], batch + rest);
    OnlyOwnBatch(front, batch, rest, back);
    OnlyLaterBatch(back, n, batch, rest, front);
  }

  lemma OnlyOwnBatch<T>(front: seq<T>, batch: seq<T>, rest: seq<T>, back: seq<T>)
    requires AllIn(rest, back) && Apart(front, back)
    ensures Unacked(front, batch + rest) == Unacked(front, batch)
  {
    UnackedSame(front, batch + rest, batch);
  }

  lemma OnlyLaterBatch<T>(back: seq<T>, n: nat, batch: seq<T>, rest: seq<T>, front: seq<T>)
    requires n <= |back| && AllIn(batch, front) && Apart(front, back)
    ensures Unacked(back[..n], batch + rest) == Unacked(back[..n], rest)
  {
    assert AllIn(back[..n], back);
    UnackedSame(back[..n], batch + rest, rest);
  }

  // ----- The batches of a faithful server are in order -----

  // `ids` occur in `mine` in this order.
  predicate Subsequence<T(==)>(ids: seq<T>, mine: seq<T>) {
    ids == [] || var k := IndexOf(mine, ids[0]); k != -1 && Subsequence(ids[1..], mine[k + 1..])
  }

  // What the server acknowledges occurs in the client's list in order; the closing id may repeat the last one.
  predicate Faithful<T(==)>(ids: seq<T>, last: Option<T>, mine: seq<T>) {
    && ids != []
    && Subsequence(ids, mine)
    && (last.None? || last.value == ids[|ids| - 1] || Subsequence(ids + AsList(last), mine))
  }

  // The leading ids `a` lie at or before index k, the others follow it in order.
  ghost predicate SplitsAt<T>(a: seq<T>, b: seq<T>, mine: seq<T>, k: int) {
    0 <= k < |mine| && AllIn(a, mine[..k + 1]) && Subsequence(b, mine[k + 1..])
  }

  // Where the last of the leading ids stands, everything before it is behind and the others are still ahead.
  lemma {:induction false} SubsequenceSplits<T>(a: seq<T>, b: seq<T>, mine: seq<T>) returns (k: nat)
    requires Distinct(mine) && a != [] && Subsequence(a + b, mine)
    ensures k == IndexOf(mine, a[|a| - 1]) && SplitsAt(a, b, mine, k)
  {
    var first := IndexOf(mine, a[0]);
    if |a| == 1 {
      SplitsFirst(a, b, mine);
      return first;
    } else {
      AfterHead(a, b);
      DistinctTail(mine, first + 1);
      var j := SubsequenceSplits(a[1..], b, mine[first + 1..]);
      LastInTail(mine, first + 1, a[|a| - 1]);
      k := first + 1 + j;
      SplitsEarlier(a, b, mine, first, j, k);
    }
  }

  lemma SplitsFirst<T>(a: seq<T>, b: seq<T>, mine: seq<T>)
    requires |a| == 1 && Subsequence(a + b, mine)
    ensures SplitsAt(a, b, mine, IndexOf(mine, a[0]))
  {
    AfterHead(a, b);
    AfterFirst(a + b, mine);
    FirstIn(a, mine, IndexOf(mine, a[0]));
  }

  lemma AfterFirst<T>(ids: seq<T>, mine: seq<T>)
    requires ids != [] && Subsequence(ids, mine)
    ensures var k := IndexOf(mine, ids[0]); k != -1 && Subsequence(ids[1..], mine[k + 1..])
  {
  }

  lemma FirstIn<T>(a: seq<T>, mine: seq<T>, k: nat)
    requires |a| == 1 && k < |mine| && mine[k] == a[0]
    ensures AllIn(a, mine[..k + 1])
  {
    assert mine[..k + 1][k] == a[0];
  }

  lemma LastInTail<T>(mine: seq<T>, n: nat, x: T)
    requires n <= |mine| && IndexOf(mine[n..], x) != -1 && Apart(mine[..n], mine[n..])
    ensures IndexOf(mine, x) == n + IndexOf(mine[n..], x)
  {
    IndexInTail(mine, n, x);
  }

  lemma AfterHead<T>(a: seq<T>, b: seq<T>)
    requires a != []
    ensures (a + b)[0] == a[0] && (a + b)[1..] == a[1..] + b
    ensures |a| == 1 ==> (a + b)[1..] == b
    ensures |a| > 1 ==> a[1..][|a[1..]| - 1] == a[|a| - 1]
  {
  }

  lemma SplitsEarlier<T>(a: seq<T>, b: seq<T>, mine: seq<T>, first: nat, j: nat, k: nat)
    requires k == first + 1 + j && a != [] && first < |mine| && mine[first] == a[0]
    requires SplitsAt(a[1..], b, mine[first + 1..], j)
    ensures SplitsAt(a, b, mine, k)
  {
    assert mine[k + 1..] == mine[first + 1..][j + 1..];
    HeadAndTailIn(a, mine, first + 1, j + 1);
  }

  lemma HeadAndTailIn<T>(a: seq<T>, mine: seq<T>, n: nat, m: nat)
    requires a != [] && 0 < n && n + m <= |mine| && mine[n - 1] == a[0] && AllIn(a[1..], mine[n..][..m])
    ensures AllIn(a, mine[..n + m])
  {
    CutTwice(mine, n, m);
    assert mine[..n][n - 1] == a[0];
    forall x | x in a ensures x in mine[..n + m] {
      assert x == a[0] || x in a[1..];
    }
  }

  lemma {:induction false} SubsequenceIn<T>(ids: seq<T>, mine: seq<T>)
    requires Subsequence(ids, mine)
    ensures AllIn(ids, mine)
  {
    if ids != [] {
      var k := IndexOf(mine, ids[0]);
      SubsequenceIn(ids[1..], mine[k + 1..]);
      assert forall x :: x in ids ==> x == ids[0] || x in ids[1..];
    }
  }

  lemma FaithfulIn<T>(ids: seq<T>, last: Option<T>, mine: seq<T>)
    requires Faithful(ids, last, mine)
    ensures AllIn(ids + AsList(last), mine)
  {
    SubsequenceIn(ids, mine);
    if last.Some? && last.value != ids[|ids| - 1] {
      SubsequenceIn(ids + AsList(last), mine);
    }
  }

  lemma FaithfulRest<T>(front: seq<T>, rest: seq<T>, last: Option<T>, mine: seq<T>) returns (k: nat)
    requires Distinct(mine) && front != [] && rest != [] && Faithful(front + rest, last, mine)
    ensures k == IndexOf(mine, front[|front| - 1]) && k < |mine|
    ensures AllIn(front, mine[..k + 1]) && Faithful(rest, last, mine[k + 1..])
  {
    k := SubsequenceSplits(front, rest, mine);
    assert (front + rest)[|front + rest| - 1] == rest[|rest| - 1];
    if last.Some? && last.value != rest[|rest| - 1] {
      assert front + rest + AsList(last) == front + (rest + AsList(last));
      var _ := SubsequenceSplits(front, rest + AsList(last), mine);
    }
  }

  lemma ClosingBatch<T>(ids: seq<T>, last: Option<T>, mine: seq<T>)
    requires Distinct(mine) && Faithful(ids, last, mine)
    ensures Leads(mine, ids + AsList(last), [])
  {
    var batch := if last.None? || last.value == ids[|ids| - 1] then ids else ids + AsList(last);
    assert batch + [] == batch;
    var k := SubsequenceSplits(batch, [], mine);
    assert AllIn(ids + AsList(last), batch);
  }

  lemma OrderedCons<T>(mine: seq<T>, batch: seq<T>, later: seq<seq<T>>)
    requires Leads(mine, batch, Concat(later))
    requires InOrder(Settle(mine, batch).left, later) && NoneEmpty(later)
    ensures InOrder(mine, [batch] + later) && NoneEmpty([batch] + later)
  {
    var all := [batch] + later;
    assert all[0] == batch && all[1..] == later;
  }

  lemma {:induction false} BatchesInOrder<T>(ids: seq<T>, last: Option<T>, mine: seq<T>)
    requires Distinct(mine) && Faithful(ids, last, mine)
    ensures InOrder(mine, Groups(ids, last)) && NoneEmpty(Groups(ids, last))
    decreases |ids|
  {
    if |ids| <= IDS_PER_BATCH {
      var batch := ids + AsList(last);
      ClosingBatch(ids, last, mine);
      OrderedCons(mine, batch, []);
      assert [batch] + [] == [batch];
    } else {
      var front, rest := ids[..IDS_PER_BATCH], ids[IDS_PER_BATCH..];
      assert front + rest == ids;
      var k := FaithfulRest(front, rest, last, mine);
      DistinctTail(mine, k + 1);
      BatchesInOrder(rest, last, mine[k + 1..]);
      FrontLeads(front, rest, last, mine, k);
      OrderedCons(mine, front, Groups(rest, last));
    }
  }

  lemma FrontLeads<T>(front: seq<T>, rest: seq<T>, last: Option<T>, mine: seq<T>, k: nat)
    requires front != [] && k == IndexOf(mine, front[|front| - 1]) && k < |mine|
    requires AllIn(front, mine[..k + 1]) && Faithful(rest, last, mine[k + 1..])
    ensures Leads(mine, front, Concat(Groups(rest, last))) && Settle(mine, front).left == mine[k + 1..]
  {
    GroupsKeepIds(rest, last);
    FaithfulIn(rest, last, mine[k + 1..]);
  }

  // ----- End to end -----

  lemma SplitOne(g: seq<string>)
    requires g != [] && CommaFree(g)
    ensures Split(Join(g, COMMA), COMMA) == g
  {
    SplitText(g);
    SplitPieces(g);
  }

  // A batch of ids without separators splits back into itself.
  lemma {:induction false} SplitBack(groups: seq<seq<string>>)
    requires NoneEmpty(groups) && CommaFree(Concat(groups))
    ensures SplitAll(Texts(groups, COMMA)) == groups
  {
    if groups == [] {
      assert SplitAll(Texts([], COMMA)) == [];
    } else {
      var g, rest := groups[0], groups[1..];
      assert forall i :: 0 <= i < |g| ==> g[i] == Concat(groups)[i];
      assert forall i :: 0 <= i < |Concat(rest)| ==> Concat(rest)[i] == Concat(groups)[|g| + i];
      SplitBack(rest);
      SplitOne(g);
      assert SplitAll(Texts(groups, COMMA)) == [Split(Join(g, COMMA), COMMA)] + SplitAll(Texts(rest, COMMA));
    }
  }

  // The client that settles every batch string a faithful server sends ends as if it had settled one
  // acknowledgement naming all the ids: the same misses in the same order, the same ids left.
  lemma BatchedEqualsWhole(ids: seq<string>, last: Option<string>, mine: seq<string>)
    requires Distinct(mine) && Faithful(ids, last, mine)
    requires CommaFree(ids + AsList(last)) && !TailLost(ids, last)
    ensures NoneEmpty(SplitAll(Batches(ids, last)))
    ensures SettleAll(mine, SplitAll(Batches(ids, last))) == Settle(mine, ids + AsList(last))
  {
    var groups := Groups(ids, last);
    GroupsKeepIds(ids, last);
    BatchesInOrder(ids, last, mine);
    SplitBack(groups);
    BatchesCompose(mine, groups);
  }

  // ----- A server that has received some of what was sent -----

  lemma {:induction false} SubsequenceLonger<T>(ids: seq<T>, mine: seq<T>, x: T)
    requires Subsequence(ids, mine)
    ensures Subsequence(ids, mine + [x])
    ensures x !in mine ==> Subsequence(ids + [x], mine + [x])
    decreases |ids|
  {
    if ids == [] {
      assert (ids + [x])[0] == x && (ids + [x])[1..] == [];
      assert (mine + [x])[|mine|] == x;
    } else {
      var k := IndexOf(mine, ids[0]);
      SameIndex(mine, ids[0], x);
      assert (mine + [x])[k + 1..] == mine[k + 1..] + [x];
      assert (ids + [x])[1..] == ids[1..] + [x];
      SubsequenceLonger(ids[1..], mine[k + 1..], x);
    }
  }

  lemma SameIndex<T>(s: seq<T>, x: T, y: T)
    requires x in s
    ensures IndexOf(s + [y], x) == IndexOf(s, x)
  {
    var k := IndexOf(s, x);
    assert (s + [y])[k] == x;
    assert forall i :: 0 <= i < k ==> (s + [y])[i] == s[i];
  }

  // Whatever messages are lost, the ids of the others occur in the client's list in order.
  lemma {:induction false} ReceivedInOrder<T>(mine: seq<T>, lost: seq<T>)
    requires Distinct(mine)
    ensures Subsequence(Unacked(mine, lost), mine)
  {
    if mine != [] {
      var front, x := mine[..|mine| - 1], mine[|mine| - 1];
      var received := Unacked(front, lost);
      assert front + [x] == mine;
      ReceivedInOrder(front, lost);
      SubsequenceLonger(received, front, x);
      assert received + [] == received;
    }
  }

  // So whichever of its messages a server received, its batches make the client report, of the ids up to the last
  // received one, exactly those that were not received, in order, and leave those after it.
  lemma LossesReported(mine: seq<string>, received: seq<string>)
    requires Distinct(mine) && Subsequence(received, mine) && received != []
    requires CommaFree(received) && "" !in received
    ensures var k := IndexOf(mine, received[|received| - 1]);
      var batches := SplitAll(Batches(received, None));
      && k != -1 && NoneEmpty(batches)
      && SettleAll(mine, batches) == Outcome(Unacked(mine[..k + 1], received), mine[k + 1..])
  {
    SubsequenceIn(received, mine);
    assert received[|received| - 1] in received;
    assert received + AsList(None) == received;
    BatchedEqualsWhole(received, None, mine);
    SettleAt(mine, received, IndexOf(mine, received[|received| - 1]));
  }

  lemma SettleAt<T>(mine: seq<T>, acks: seq<T>, k: nat)
    requires acks != [] && IndexOf(mine, acks[|acks| - 1]) == k
    ensures Settle(mine, acks) == Outcome(Unacked(mine[..k + 1], acks), mine[k + 1..])
  {
  }
}
