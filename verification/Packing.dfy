/** Greedy packing of tokens into segments of bounded length, and why no other packing needs fewer segments. */
module Packing {
  import opened Sequences
  import opened CText
  import opened Messages

  predicate Fits(group: seq<string>, max: nat) {
    |Join(group, BAR)| <= max
  }

  predicate AllFit(groups: seq<seq<string>>, max: nat) {
    forall i :: 0 <= i < |groups| ==> Fits(groups[i], max)
  }

  // The loop's rule: a token joins the current group if the result still fits, and opens a new group otherwise.
  function Pack(current: seq<string>, rest: seq<string>, max: nat): seq<seq<string>>
    decreases |rest|
  {
    if rest == [] then [current]
    else if Fits(current + [rest[0]], max) then Pack(current + [rest[0]], rest[1..], max)
    else [current] + Pack([rest[0]], rest[1..], max)
  }

  // What split_buffer returns: nothing for one over-long token, the greedy segments otherwise.
  function Segments(buffer: string, max: nat): seq<string> {
    if |buffer| > max && BAR !in buffer then [] else Texts(Pack([], Tokens(buffer, BAR), max), BAR)
  }

  // The segments hold every token once, in order.
  lemma {:induction false} PackKeepsTokens(current: seq<string>, rest: seq<string>, max: nat)
    ensures Concat(Pack(current, rest, max)) == current + rest
    decreases |rest|
  {
    if rest == [] {
      assert Concat([current]) == current + Concat([]);
    } else if Fits(current + [rest[0]], max) {
      PackKeepsTokens(current + [rest[0]], rest[1..], max);
      assert current + [rest[0]] + rest[1..] == current + rest;
    } else {
      PackKeepsTokens([rest[0]], rest[1..], max);
      var tail := Pack([rest[0]], rest[1..], max);
      assert ([current] + tail)[1..] == tail;
      assert [rest[0]] + rest[1..] == rest;
    }
  }

  lemma {:induction false} PackFits(current: seq<string>, rest: seq<string>, max: nat)
    requires Fits(current, max)
    requires forall i :: 0 <= i < |rest| ==> |rest[i]| <= max
    ensures AllFit(Pack(current, rest, max), max)
    decreases |rest|
  {
    if rest != [] {
      assert Join([rest[0]], BAR) == rest[0];
      if Fits(current + [rest[0]], max) {
        PackFits(current + [rest[0]], rest[1..], max);
      } else {
        PackFits([rest[0]], rest[1..], max);
      }
    }
  }

  lemma {:induction false} PackGroupsNonEmpty(current: seq<string>, rest: seq<string>, max: nat)
    requires current != []
    ensures forall i :: 0 <= i < |Pack(current, rest, max)| ==> Pack(current, rest, max)[i] != []
    decreases |rest|
  {
    if rest != [] {
      if Fits(current + [rest[0]], max) {
        PackGroupsNonEmpty(current + [rest[0]], rest[1..], max);
      } else {
        PackGroupsNonEmpty([rest[0]], rest[1..], max);
      }
    }
  }

  // Greedy stays ahead: when its current group starts no earlier than the other packing's first group,
  // the other packing needs at least as many groups from there on.
  lemma {:induction false} GreedyStaysAhead(before: seq<string>, current: seq<string>, rest: seq<string>,
                                            other: seq<seq<string>>, max: nat)
    requires current != []
    requires AllFit(other, max) && Concat(other) == before + current + rest
    ensures |Pack(current, rest, max)| <= |other|
    decreases |rest|
  {
    assert other != [];
    if rest != [] {
      var t := [rest[0]];
      assert rest == t + rest[1..];
      if Fits(current + t, max) {
        assert before + current + rest == before + (current + t) + rest[1..];
        GreedyStaysAhead(before, current + t, rest[1..], other, max);
      } else {
        var reached := before + current;
        var group := other[0];
        FirstGroupStops(before, current, rest, group, Concat(other[1..]), max);
        assert Concat(other[1..]) == Concat(other)[|group|..];
        assert Concat(other)[|group|..] == reached[|group|..] + t + rest[1..];
        GreedyStaysAhead(reached[|group|..], t, rest[1..], other[1..], max);
      }
    }
  }

  // A group that fits cannot reach past a current group that its next token overflows.
  lemma FirstGroupStops(before: seq<string>, current: seq<string>, rest: seq<string>,
                        group: seq<string>, others: seq<string>, max: nat)
    requires rest != [] && !Fits(current + [rest[0]], max) && Fits(group, max)
    requires group + others == before + current + rest
    ensures |group| <= |before + current|
  {
    if |group| > |before + current| {
      var over := group[|before + current| + 1..];
      assert group == (before + current + rest)[..|group|];
      assert group == before + (current + [rest[0]]) + over;
      JoinGrows(before, current + [rest[0]], over, BAR);
    }
  }

  lemma {:induction false} FittingTokens(groups: seq<seq<string>>, max: nat)
    requires AllFit(groups, max)
    ensures forall i :: 0 <= i < |Concat(groups)| ==> |Concat(groups)[i]| <= max
  {
    if groups != [] {
      var g := groups[0];
      FittingTokens(groups[1..], max);
      forall i | 0 <= i < |g|
        ensures |g[i]| <= max
      {
        JoinGrows(g[..i], [g[i]], g[i + 1..], BAR);
        assert g == g[..i] + [g[i]] + g[i + 1..];
      }
    }
  }

  // No split of the tokens into consecutive fitting groups has fewer groups than the greedy one.
  lemma GreedyIsOptimal(tokens: seq<string>, other: seq<seq<string>>, max: nat)
    requires tokens != [] && AllFit(other, max) && Concat(other) == tokens
    ensures AllFit(Pack([], tokens, max), max)
    ensures Concat(Pack([], tokens, max)) == tokens
    ensures |Pack([], tokens, max)| <= |other|
  {
    FittingTokens(other, max);
    assert AllFit(Pack([], tokens, max), max) by {
      PackFits([], tokens, max);
    }
    assert Concat(Pack([], tokens, max)) == tokens by {
      PackKeepsTokens([], tokens, max);
      assert [] + tokens == tokens;
    }
    assert |Pack([], tokens, max)| <= |other| by {
      PackStarts(tokens, max);
      assert tokens == [] + [tokens[0]] + tokens[1..];
      GreedyStaysAhead([], [tokens[0]], tokens[1..], other, max);
    }
  }

  lemma PackStarts(tokens: seq<string>, max: nat)
    requires tokens != [] && |tokens[0]| <= max
    ensures Pack([], tokens, max) == Pack([tokens[0]], tokens[1..], max)
  {
    assert [] + [tokens[0]] == [tokens[0]];
    assert Join([tokens[0]], BAR) == tokens[0];
  }

  // Tokenising every segment gives back the groups, hence all tokens in order.
  lemma TokensOfTexts(groups: seq<seq<string>>)
    requires forall i :: 0 <= i < |groups| ==> ProperTokens(groups[i], BAR)
    ensures forall i :: 0 <= i < |groups| ==> Tokens(Texts(groups, BAR)[i], BAR) == groups[i]
  {
    forall i | 0 <= i < |groups|
      ensures Tokens(Texts(groups, BAR)[i], BAR) == groups[i]
    {
      TokensOfJoin(groups[i], BAR);
    }
  }

  lemma {:induction false} GroupsAreProper(groups: seq<seq<string>>)
    requires ProperTokens(Concat(groups), BAR)
    ensures forall i :: 0 <= i < |groups| ==> ProperTokens(groups[i], BAR)
  {
    if groups != [] {
      var g, rest := groups[0], Concat(groups[1..]);
      assert forall k :: 0 <= k < |g| ==> g[k] == (g + rest)[k];
      assert forall k :: 0 <= k < |rest| ==> rest[k] == (g + rest)[|g| + k];
      GroupsAreProper(groups[1..]);
      assert forall i :: 1 <= i < |groups| ==> groups[i] == groups[1..][i - 1];
    }
  }

  // ----- Greedy, and only greedy -----

  // No group but the last has room for the next token with its bar.
  predicate Tight(groups: seq<seq<string>>, max: nat) {
    forall i :: 0 <= i < |groups| - 1 && groups[i + 1] != [] ==> |Join(groups[i], '|')| + 1 + |groups[i + 1][0]| > max
  }

  lemma {:induction false} PackIsTight(current: seq<string>, rest: seq<string>, max: nat)
    requires current != []
    ensures var groups := Pack(current, rest, max);
      Tight(groups, max) && groups != [] && groups[0] != [] && groups[0][0] == current[0]
    decreases |rest|
  {
    if rest != [] {
      var t := [rest[0]];
      JoinConcat(current, t, BAR);
      if Fits(current + t, max) {
        PackIsTight(current + t, rest[1..], max);
      } else {
        PackIsTight(t, rest[1..], max);
        var tail := Pack(t, rest[1..], max);
        assert forall i :: 1 <= i < |[current] + tail| ==> ([current] + tail)[i] == tail[i - 1];
      }
    }
  }

  lemma PackedGroups(tokens: seq<string>, max: nat)
    requires tokens != [] && forall i :: 0 <= i < |tokens| ==> |tokens[i]| <= max
    ensures var groups := Pack([], tokens, max);
      && Concat(groups) == tokens && AllFit(groups, max) && Tight(groups, max)
      && forall i :: 0 <= i < |groups| ==> groups[i] != []
  {
    PackFits([], tokens, max);
    assert Concat(Pack([], tokens, max)) == tokens by {
      PackKeepsTokens([], tokens, max);
      assert [] + tokens == tokens;
    }
    PackStarts(tokens, max);
    PackIsTight([tokens[0]], tokens[1..], max);
    PackGroupsNonEmpty([tokens[0]], tokens[1..], max);
  }

  // The segments are the one split of the tokens into non-empty groups that fit and are all tight.
  lemma {:induction false} OnlyGreedyIsTight(current: seq<string>, rest: seq<string>, other: seq<seq<string>>, max: nat)
    requires current != [] && other != [] && current <= other[0] && Concat(other) == current + rest
    requires AllFit(other, max) && Tight(other, max) && forall i :: 0 <= i < |other| ==> other[i] != []
    ensures other == Pack(current, rest, max)
    decreases |rest|
  {
    var group, later := other[0], other[1..];
    if group == current {
      assert Concat(later) == rest by {
        assert (group + Concat(later))[|current|..] == rest;
      }
      if later == [] {
        assert other == [group];
      } else {
        NextGroup(current, rest, other, max);
        OnlyGreedyIsTight([rest[0]], rest[1..], later, max);
      }
    } else {
      var t := [group[|current|]];
      assert group + Concat(later) == current + rest;
      assert rest[0] == (current + rest)[|current|] == t[0];
      assert current + t == group[..|current| + 1];
      JoinGrows([], current + t, group[|current| + 1..], BAR);
      assert [] + (current + t) + group[|current| + 1..] == group;
      assert current + t + rest[1..] == current + rest;
      OnlyGreedyIsTight(current + t, rest[1..], other, max);
    }
  }

  lemma NextGroup(current: seq<string>, rest: seq<string>, other: seq<seq<string>>, max: nat)
    requires |other| > 1 && current != [] && other[0] == current && other[1] != [] && Concat(other[1..]) == rest
    requires Tight(other, max)
    ensures rest != [] && other[1][0] == rest[0] && [rest[0]] + rest[1..] == rest && [rest[0]] <= other[1]
    ensures !Fits(current + [rest[0]], max) && Tight(other[1..], max)
  {
    var later := other[1..];
    assert later[0] == other[1] && rest == other[1] + Concat(later[1..]);
    JoinConcat(current, [rest[0]], BAR);
    assert forall i :: 0 <= i < |later| ==> later[i] == other[i + 1];
  }
}
