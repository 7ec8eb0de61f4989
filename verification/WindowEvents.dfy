/** Samples and adjustments in any order, as the failure detector mixes them on one window. */
module WindowEvents {
  import opened Sequences
  import opened WindowStatistics

  datatype Event = Sample(interval: real) | Adjustment(missed: int)

  function AfterEvent(s: seq<real>, max: nat, e: Event): seq<real>
    requires max >= 1
  {
    match e
    case Sample(x) => AfterAdd(s, max, x)
    case Adjustment(missed) => Adjusted(s, missed)
  }

  function AfterEvents(events: seq<Event>, max: nat): seq<real>
    requires max >= 1
  {
    if events == [] then []
    else AfterEvent(AfterEvents(events[..|events| - 1], max), max, events[|events| - 1])
  }

  // ----- What each sample has become -----

  function Counts(events: seq<Event>): seq<int> {
    if events == [] then []
    else if events[0].Adjustment? then [events[0].missed] + Counts(events[1..])
    else Counts(events[1..])
  }

  function AdjustedBy(x: real, counts: seq<int>): real {
    if counts == [] then x else Adjust(AdjustedBy(x, counts[..|counts| - 1]), counts[|counts| - 1])
  }

  // Every sample, in order, after the adjustments that followed it.
  function Worn(events: seq<Event>): seq<real> {
    if events == [] then []
    else if events[0].Sample? then [AdjustedBy(events[0].interval, Counts(events[1..]))] + Worn(events[1..])
    else Worn(events[1..])
  }

  // Every sample, in order, times the product of the clipped factors that followed it.
  function ScaledSamples(events: seq<Event>): seq<real> {
    if events == [] then []
    else if events[0].Sample?
    then [Times(events[0].interval, TotalFactor(Counts(events[1..])))] + ScaledSamples(events[1..])
    else ScaledSamples(events[1..])
  }

  lemma {:induction false} CountsAppend(events: seq<Event>, e: Event)
    ensures Counts(events + [e]) == Counts(events) + if e.Adjustment? then [e.missed] else []
  {
    if events == [] {
      assert [] + [e] == [e] && [e][1..] == [];
    } else {
      assert (events + [e])[1..] == events[1..] + [e];
      CountsAppend(events[1..], e);
    }
  }

  lemma {:induction false} WornAppend(events: seq<Event>, e: Event)
    ensures Worn(events + [e])
         == match e case Sample(x) => Worn(events) + [x] case Adjustment(missed) => Adjusted(Worn(events), missed)
  {
    if events == [] {
      assert [] + [e] == [e] && [e][1..] == [];
    } else {
      var counts := Counts(events[1..]);
      assert (events + [e])[1..] == events[1..] + [e];
      WornAppend(events[1..], e);
      CountsAppend(events[1..], e);
      match e
      case Sample(x) =>
        assert counts + [] == counts;
        if events[0].Sample? {
          Regroup(AdjustedBy(events[0].interval, counts), Worn(events[1..]), [x]);
        }
      case Adjustment(missed) =>
        assert (counts + [missed])[..|counts|] == counts;
        if events[0].Sample? {
          AdjustedCons(AdjustedBy(events[0].interval, counts), Worn(events[1..]), missed);
        }
    }
  }

  lemma AdjustedCons(x: real, s: seq<real>, missed: int)
    ensures Adjusted([x] + s, missed) == [Adjust(x, missed)] + Adjusted(s, missed)
  {
  }

  // ----- The window -----

  lemma {:induction false} EnteredAdjusts(s: seq<real>, max: nat, missed: int)
    ensures Entered(Adjusted(s, missed), max) == Adjusted(Entered(s, max), missed)
  {
    if |s| > max {
      var front := s[..|s| - 1];
      assert Adjusted(s, missed)[..|s| - 1] == Adjusted(front, missed);
      EnteredAdjusts(front, max, missed);
    }
  }

  lemma WindowAdjusts(s: seq<real>, max: nat, missed: int)
    requires max >= 1
    ensures Window(Adjusted(s, missed), max) == Adjusted(Window(s, max), missed)
  {
    EnteredAdjusts(s, max, missed);
  }

  // Samples and adjustments mixed in any order leave in the window the samples that the same samples alone would,
  // each after the adjustments that followed it.
  lemma {:induction false} WindowAfterEvents(events: seq<Event>, max: nat)
    requires max >= 1
    ensures AfterEvents(events, max) == Window(Worn(events), max)
  {
    if events != [] {
      var front, e := events[..|events| - 1], events[|events| - 1];
      WindowAfterEvents(front, max);
      assert front + [e] == events;
      WornAppend(front, e);
      match e
      case Sample(x) =>
        assert Worn(events)[..|Worn(front)|] == Worn(front);
        WindowStep(Worn(events), max);
      case Adjustment(missed) =>
        WindowAdjusts(Worn(front), max, missed);
    }
  }

  lemma {:induction false} AdjustedByScales(x: real, counts: seq<int>)
    requires x >= 0.0
    ensures AdjustedBy(x, counts) == Times(x, TotalFactor(counts))
  {
    if counts != [] {
      var front := counts[..|counts| - 1];
      AdjustedByScales(x, front);
      TotalFactorNonNegative(front);
      AdjustOnce(x, TotalFactor(front), counts[|counts| - 1]);
    }
  }

  // On non-negative samples the adjustments are factors.
  lemma {:induction false} WornIsScaled(events: seq<Event>)
    requires forall e :: e in events && e.Sample? ==> e.interval >= 0.0
    ensures Worn(events) == ScaledSamples(events)
  {
    if events != [] {
      WornIsScaled(events[1..]);
      if events[0].Sample? {
        AdjustedByScales(events[0].interval, Counts(events[1..]));
      }
    }
  }

  // Each counted interval is its sample times the product of the clipped factors since the sample entered.
  lemma MixedWindow(events: seq<Event>, max: nat)
    requires max >= 1 && forall e :: e in events && e.Sample? ==> e.interval >= 0.0
    ensures AfterEvents(events, max) == Window(ScaledSamples(events), max)
  {
    WindowAfterEvents(events, max);
    WornIsScaled(events);
  }
}
