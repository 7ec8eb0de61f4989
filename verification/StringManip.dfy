/** split_string: a counting pass, then one token per slot, empty tokens included. */
module StringManip {
  import opened Sequences
  import opened CText

  // One token more than there are delimiters.
  lemma {:induction false} SplitCount(s: string, delim: char)
    ensures |Split(s, delim)| == Count(s, delim) + 1
    decreases |s|
  {
    var n := Run(s, delim);
    assert s == s[..n] + s[n..];
    CountAppend(s[..n], s[n..], delim);
    CountZero(s[..n], delim);
    if n < |s| {
      assert s[n..][1..] == s[n + 1..];
      SplitCount(s[n + 1..], delim);
    } else {
      assert s[n..] == [];
    }
  }

  method CountTokens(s: CString, delim: char) returns (n: nat)
    ensures n == |Split(s, delim)|
  {
    n := 0;
    var i := 0;
    while i < |s|
      invariant 0 <= i <= |s| && Count(s, delim) == n + Count(s[i..], delim)
    {
      assert s[i..][1..] == s[i + 1..];
      if s[i] == delim {
        n := n + 1;
      }
      i := i + 1;
    }
    n := n + 1;
    SplitCount(s, delim);
  }

  lemma SplitStep(s: string, delim: char, ptr: nat, end: nat)
    requires ptr <= end <= |s| && delim !in s[ptr..end] && (end < |s| ==> s[end] == delim)
    ensures Split(s[ptr..], delim) == if end < |s| then [s[ptr..end]] + Split(s[end + 1..], delim) else [s[ptr..end]]
  {
    var rest := s[ptr..];
    assert rest == s[ptr..end] + s[end..];
    RunOf(s[ptr..end], s[end..], delim);
    if end < |s| {
      assert rest[..end - ptr] == s[ptr..end] && rest[end - ptr + 1..] == s[end + 1..];
    } else {
      assert rest == s[ptr..end];
    }
  }

  method SplitString(s: CString, delim: char) returns (result: seq<string>)
    ensures result == Split(s, delim)
  {
    var count := CountTokens(s, delim);
    var tokens := new string[count];
    var ptr: nat := 0;
    assert s[0..] == s;
    ghost var rest := Split(s, delim);
    for i := 0 to count
      invariant ptr <= |s| && (i < count ==> rest == Split(s[ptr..], delim))
      invariant Split(s, delim) == tokens[..i] + rest
    {
      var end := TokenEnd(s, delim, ptr);
      SplitStep(s, delim, ptr, end);
      ghost var tail := if end < |s| then Split(s[end + 1..], delim) else [];
      assert rest == [s[ptr..end]] + tail;
      RegroupMiddle(tokens[..i], s[ptr..end], tail);
      tokens[i] := s[ptr..end];
      assert tokens[..i + 1] == tokens[..i] + [s[ptr..end]];
      rest := tail;
      ptr := if end < |s| then end + 1 else end;
    }
    return tokens[..];
  }
}
