/** Whether the client's shutdown, which waits for its pending list to become empty, can still end. */
module Shutdown {
  import opened Words
  import opened CText
  import opened Messages
  import opened AckDiff
  import opened WireIds
  import opened Endpoints
  import opened Protocol

  // A reading at which every message has expired, whatever its timestamp.
  const FAR: int := TWO_63 + 2_001_000

  // ----- While the responder listens -----

  // A packet is on its way, or has been, that the responder does not take for the end.
  ghost predicate Replied(s: System) {
    exists k :: 0 <= k < |s.toClient| && s.toClient[k] != "STOP"
  }

  lemma RepliesAreNoStop(ids: seq<Word64>)
    ensures Replies(ids) != [] && Replies(ids)[0] != "STOP"
  {
    WordsFit(ids, MAX_SEGMENT_SIZE);
    SegmentsStartWithDigit(ids, MAX_SEGMENT_SIZE);
  }

  lemma NoReplyIsStop(ids: seq<Word64>)
    ensures "STOP" !in Replies(ids)
  {
    WordsFit(ids, MAX_SEGMENT_SIZE);
    SegmentsStartWithDigit(ids, MAX_SEGMENT_SIZE);
    assert "STOP"[0] == 'S' && !IsDigit('S');
  }

  // The packet that ends the responder goes out only after the server has stopped.
  lemma {:induction false} StopComesLast(steps: seq<Step>)
    ensures Reached(steps).server.running ==> "STOP" !in Reached(steps).toClient
  {
    if steps != [] {
      var front, last := steps[..|steps| - 1], steps[|steps| - 1];
      StopComesLast(front);
      NoStopYet(Reached(front), last);
    }
  }

  lemma NoStopYet(s: System, step: Step)
    requires D.AllHaveContent(s.client.pending) && (s.server.running ==> "STOP" !in s.toClient)
    ensures Next(s, step).server.running ==> "STOP" !in Next(s, step).toClient
  {
    NoReplyIsStop(s.server.ids);
  }

  // The step appends to the log of replies, so what was there stays where it is.
  lemma NextKeepsReplies(s: System, step: Step)
    requires D.AllHaveContent(s.client.pending)
    ensures s.toClient <= Next(s, step).toClient
    ensures Replied(s) ==> Replied(Next(s, step))
  {
    assert s.toClient <= Next(s, step).toClient;
    assert forall k :: 0 <= k < |s.toClient| ==> Next(s, step).toClient[k] == s.toClient[k];
  }

  // Taking a heartbeat or a stop, a running server replies.
  lemma ServerReplies(s: System, k: nat)
    requires D.AllHaveContent(s.client.pending) && s.server.running && k < |s.toServer|
    requires Dispatch(s.toServer[k]).Heartbeat? || Dispatch(s.toServer[k]).Stop?
    ensures var t := Next(s, ServerTakes(k));
      |t.toClient| > |s.toClient| && t.toClient[|s.toClient|] != "STOP" && Replied(t)
  {
    RepliesAreNoStop(s.server.ids);
    var t := Next(s, ServerTakes(k));
    assert t.toClient == s.toClient + Replies(s.server.ids);
    assert t.toClient[|s.toClient|] == Replies(s.server.ids)[0];
  }

  // A server stops only after it has replied.
  lemma {:induction false} StoppedServerReplied(steps: seq<Step>)
    ensures Reached(steps).server.running || Replied(Reached(steps))
  {
    if steps != [] {
      var front, last := steps[..|steps| - 1], steps[|steps| - 1];
      StoppedServerReplied(front);
      NextKeepsReplies(Reached(front), last);
      if Reached(front).server.running && !Reached(steps).server.running {
        ServerReplies(Reached(front), last.packet);
      }
    }
  }

  // A late reading of any reply empties the list.
  lemma LateReplyDrains(s: System, k: nat)
    requires D.AllHaveContent(s.client.pending) && s.client.listening && s.client.toCount.None?
    requires k < |s.toClient| && s.toClient[k] != "STOP"
    ensures Next(s, ResponderTakes(k, Fixed(FAR))).client.pending == []
  {
    forall i | 0 <= i < |s.client.pending|
      ensures TimedOut(s.client.pending[i], FAR)
    {
      DefaultTimeout(s.client.pending[i], FAR);
    }
    ExpiredDrain(s.client.pending, ParseIds(s.toClient[k]), Fixed(FAR));
  }

  predicate ReadsNothing(steps: seq<Step>) {
    forall i :: 0 <= i < |steps| ==> !steps[i].ResponderTakes?
  }

  // The responder finishes what it is counting.
  lemma Idle(steps: seq<Step>) returns (more: seq<Step>)
    requires Reached(steps).client.listening
    ensures var s, t := Reached(steps), Reached(steps + more);
      t.client.listening && t.client.toCount.None? && t.server == s.server && t.toClient == s.toClient
    ensures ReadsNothing(more)
  {
    if Reached(steps).client.toCount.Some? {
      ReachedStep(steps, CountMissed);
      more := [CountMissed];
    } else {
      assert steps + [] == steps;
      more := [];
    }
  }

  // A heartbeat makes a running server reply.
  lemma Beat(steps: seq<Step>) returns (more: seq<Step>)
    requires var s := Reached(steps); s.client.listening && s.client.toCount.None? && s.server.running
    ensures var s, t := Reached(steps), Reached(steps + more);
      && t.client.listening && t.client.toCount.None?
      && |t.toClient| > |s.toClient| && t.toClient[|s.toClient|] != "STOP"
    ensures ReadsNothing(more)
  {
    var s := Reached(steps);
    var beat, take := Control("HB"), ServerTakes(|s.toServer|);
    ReachedStep(steps, beat);
    ReachedStep(steps + [beat], take);
    BeatIsLogged(s);
    ServerReplies(Reached(steps + [beat]), |s.toServer|);
    more := [beat] + [take];
    assert steps + more == steps + [beat] + [take];
  }

  lemma BeatIsLogged(s: System)
    requires D.AllHaveContent(s.client.pending)
    ensures Dispatch("HB").Heartbeat? && Next(s, Control("HB")) == s.(toServer := s.toServer + ["HB"])
  {
    assert "HB" <= "HB" && !("STOP" <= "HB") && !("START" <= "HB");
  }

  // A stopped server has replied before.
  lemma GetsReply(steps: seq<Step>) returns (more: seq<Step>)
    requires Reached(steps).client.listening && Reached(steps).client.toCount.None?
    ensures var t := Reached(steps + more); t.client.listening && t.client.toCount.None? && Replied(t)
  {
    StoppedServerReplied(steps);
    if Replied(Reached(steps)) {
      assert steps + [] == steps;
      more := [];
    } else {
      more := Beat(steps);
    }
  }

  lemma ListeningDrains(steps: seq<Step>) returns (more: seq<Step>)
    requires Reached(steps).client.listening
    ensures Reached(steps + more).client.pending == []
  {
    var a := Idle(steps);
    var b := GetsReply(steps + a);
    var c := DrainingStep(steps + a + b);
    more := a + b + c;
    Associate(steps, a, b, c);
  }

  lemma Associate<T>(a: seq<T>, b: seq<T>, c: seq<T>, d: seq<T>)
    ensures a + (b + c + d) == a + b + c + d
  {
  }

  lemma DrainingStep(ready: seq<Step>) returns (more: seq<Step>)
    requires var s := Reached(ready); s.client.listening && s.client.toCount.None? && Replied(s)
    ensures Reached(ready + more).client.pending == []
  {
    var k :| 0 <= k < |Reached(ready).toClient| && Reached(ready).toClient[k] != "STOP";
    more := ReadLate(ready, k);
  }

  lemma ReadLate(ready: seq<Step>, k: nat) returns (more: seq<Step>)
    requires var s := Reached(ready);
      s.client.listening && s.client.toCount.None? && k < |s.toClient| && s.toClient[k] != "STOP"
    ensures Reached(ready + more).client.pending == [] && more == [ResponderTakes(k, Fixed(FAR))]
  {
    LateReplyDrains(Reached(ready), k);
    more := [ResponderTakes(k, Fixed(FAR))];
    ReachedStep(ready, more[0]);
  }

  // ----- Once it does not -----

  lemma DeafStep(s: System, step: Step)
    requires D.AllHaveContent(s.client.pending) && !s.client.listening
    ensures !Next(s, step).client.listening && s.client.pending <= Next(s, step).client.pending
  {
  }

  // Nothing leaves the list any more.
  lemma {:induction false} DeafClientKeeps(steps: seq<Step>, more: seq<Step>)
    requires !Reached(steps).client.listening
    ensures !Reached(steps + more).client.listening
    ensures Reached(steps).client.pending <= Reached(steps + more).client.pending
  {
    if more == [] {
      assert steps + more == steps;
    } else {
      var front, last := more[..|more| - 1], more[|more| - 1];
      DeafClientKeeps(steps, front);
      ReachedStep(steps + front, last);
      assert steps + front + [last] == steps + more;
      DeafStep(Reached(steps + front), last);
    }
  }

  // From any reached state some continuation ends the wait: exactly when the list is empty already or the
  // responder still listens. A continuation may deliver an old reply again.
  lemma WaitCanEnd(steps: seq<Step>)
    ensures (exists more :: Reached(steps + more).client.pending == [])
       <==> Reached(steps).client.pending == [] || Reached(steps).client.listening
  {
    if Reached(steps).client.listening {
      var more := ListeningDrains(steps);
    } else if Reached(steps).client.pending == [] {
      assert steps + [] == steps;
    } else {
      forall more
        ensures Reached(steps + more).client.pending != []
      {
        DeafClientKeeps(steps, more);
      }
    }
  }

  // ----- Without repeated deliveries -----

  // Every packet the responder takes is one that was sent after the first `n`.
  predicate ReadsOnlyNew(steps: seq<Step>, n: nat) {
    forall i :: 0 <= i < |steps| && steps[i].ResponderTakes? ==> steps[i].reply >= n
  }

  lemma NewReplyDrains(steps: seq<Step>) returns (more: seq<Step>)
    requires Reached(steps).client.listening && Reached(steps).server.running
    ensures ReadsOnlyNew(more, |Reached(steps).toClient|) && Reached(steps + more).client.pending == []
  {
    var a := Idle(steps);
    var b := Beat(steps + a);
    var c := ReadLate(steps + a + b, |Reached(steps).toClient|);
    more := a + b + c;
    Associate(steps, a, b, c);
  }

  // The server has stopped, and what it sent since the first `n` packets is only the final STOP, if anything.
  ghost predicate Silent(s: System, n: nat) {
    && !s.server.running && n <= |s.toClient|
    && forall i :: n <= i < |s.toClient| ==> s.toClient[i] == "STOP"
  }

  lemma SilentStep(s: System, step: Step, n: nat)
    requires D.AllHaveContent(s.client.pending) && Silent(s, n) && (step.ResponderTakes? ==> step.reply >= n)
    ensures Silent(Next(s, step), n) && s.client.pending <= Next(s, step).client.pending
  {
  }

  lemma {:induction false} SilentServerKeeps(steps: seq<Step>, more: seq<Step>)
    requires var n := |Reached(steps).toClient|; !Reached(steps).server.running && ReadsOnlyNew(more, n)
    ensures Silent(Reached(steps + more), |Reached(steps).toClient|)
    ensures Reached(steps).client.pending <= Reached(steps + more).client.pending
  {
    if more == [] {
      assert steps + more == steps;
    } else {
      var front, last := more[..|more| - 1], more[|more| - 1];
      assert more == front + [last];
      ReadsInParts(front, last, |Reached(steps).toClient|);
      SilentServerKeeps(steps, front);
      SilentOneMore(steps, front, last, |Reached(steps).toClient|);
    }
  }

  lemma ReadsInParts(front: seq<Step>, last: Step, n: nat)
    requires ReadsOnlyNew(front + [last], n)
    ensures ReadsOnlyNew(front, n) && (last.ResponderTakes? ==> last.reply >= n)
  {
    assert (front + [last])[|front|] == last;
    assert forall i :: 0 <= i < |front| ==> (front + [last])[i] == front[i];
  }

  lemma SilentOneMore(steps: seq<Step>, front: seq<Step>, last: Step, n: nat)
    requires Silent(Reached(steps + front), n) && (last.ResponderTakes? ==> last.reply >= n)
    requires Reached(steps).client.pending <= Reached(steps + front).client.pending
    ensures Silent(Reached(steps + (front + [last])), n)
    ensures Reached(steps).client.pending <= Reached(steps + (front + [last])).client.pending
  {
    assert steps + front + [last] == steps + (front + [last]);
    ReachedStep(steps + front, last);
    SilentStep(Reached(steps + front), last, n);
  }

  // With new packets alone the wait can end exactly when the list is empty already, or the responder listens and
  // the server runs.
  lemma WaitCanEndAnew(steps: seq<Step>)
    ensures (exists more :: ReadsOnlyNew(more, |Reached(steps).toClient|) && Reached(steps + more).client.pending == [])
       <==> Reached(steps).client.pending == [] || (Reached(steps).client.listening && Reached(steps).server.running)
  {
    var n := |Reached(steps).toClient|;
    if Reached(steps).client.pending == [] {
      assert steps + [] == steps && ReadsOnlyNew([], n);
    } else if Reached(steps).client.listening && Reached(steps).server.running {
      var more := NewReplyDrains(steps);
    } else {
      forall more | ReadsOnlyNew(more, n)
        ensures Reached(steps + more).client.pending != []
      {
        if Reached(steps).server.running {
          DeafClientKeeps(steps, more);
        } else {
          SilentServerKeeps(steps, more);
        }
      }
    }
  }

  // ----- A run in which a sender waits forever -----

  // One thread finds the list empty and stops the server, whose final STOP goes out. Another thread sends before
  // the responder reads that STOP.
  const STUCK: seq<Step> :=
    [Control("STOP")] + [ServerTakes(0)] + [ServerQuits] + [Send("x", 0, true)] + [ResponderTakes(1, Fixed(0))]

  lemma StuckForever()
    ensures !Reached(STUCK).client.listening
    ensures forall more :: Reached(STUCK + more).client.pending != []
  {
    var a, b, c := [Control("STOP")], [ServerTakes(0)], [ServerQuits];
    StoppedByThen();
    ReachedStep(a + b + c, Send("x", 0, true));
    ReachedStep(a + b + c + [Send("x", 0, true)], ResponderTakes(1, Fixed(0)));
    assert Reached(STUCK).client.pending != [];
    forall more
      ensures Reached(STUCK + more).client.pending != []
    {
      DeafClientKeeps(STUCK, more);
    }
  }

  lemma StoppedByThen()
    ensures var s := Reached([Control("STOP")] + [ServerTakes(0)] + [ServerQuits]);
      s.client == ClientState(0, [], 0, None, true) && s.toClient == ["WAKEUP", "STOP"]
  {
    var a, b := [Control("STOP")], [ServerTakes(0)];
    assert [] + a == a && Reached([]) == INITIAL;
    ReachedStep([], Control("STOP"));
    ReachedStep(a, ServerTakes(0));
    ReachedStep(a + b, ServerQuits);
    assert "STOP" <= "STOP";
    assert Reached(a).toServer == ["STOP"];
    assert Reached(a + b).toClient == ["WAKEUP"];
  }
}
