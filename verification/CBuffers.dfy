/** Fixed-size character buffers and the C library calls that write into them. */
module CBuffers {
  import opened CText

  // The buffer currently holds the C string `s`: its characters, then the terminating NUL.
  ghost predicate Holds(b: array<char>, s: string)
    reads b
  {
    |s| < b.Length && NUL !in s && b[..|s|] == s && b[|s|] == NUL
  }

  // strcpy(b + at, s), and sprintf(b + at, "%s", s): the characters and the NUL, nothing else.
  method StrCpy(b: array<char>, at: nat, s: CString)
    requires at + |s| < b.Length
    modifies b
    ensures b[..at] == old(b[..at])
    ensures b[at..at + |s|] == s && b[at + |s|] == NUL
    ensures b[at + |s| + 1..] == old(b[at + |s| + 1..])
  {
    var i := 0;
    while i < |s|
      invariant 0 <= i <= |s|
      invariant b[at..at + i] == s[..i]
      invariant b[..at] == old(b[..at])
      invariant b[at + i..] == old(b[at + i..])
    {
      b[at + i] := s[i];
      assert b[at..at + i + 1] == b[at..at + i] + [s[i]];
      assert b[at + i + 1..] == old(b[at + i..])[1..];
      i := i + 1;
    }
    b[at + |s|] := NUL;
    assert b[at + |s| + 1..] == old(b[at + |s|..])[1..];
  }

  // strlen(b)
  method StrLen(b: array<char>, ghost held: string) returns (end: nat)
    requires Holds(b, held)
    ensures end == |held|
  {
    assert forall i :: 0 <= i < |held| ==> b[i] == held[i] && held[i] != NUL by {
      assert forall i :: 0 <= i < |held| ==> b[..|held|][i] == b[i];
    }
    end := 0;
    while b[end] != NUL
      invariant 0 <= end <= |held|
      decreases |held| - end
    {
      end := end + 1;
    }
  }

  // The C string in the buffer, as a callee that is passed the buffer sees it.
  method Text(b: array<char>, ghost held: string) returns (s: CString)
    requires Holds(b, held)
    ensures s == held
  {
    var end := StrLen(b, held);
    s := b[..end];
  }

  // strcat(b, s): from the end of what the buffer holds.
  method StrCat(b: array<char>, ghost held: string, s: CString)
    requires Holds(b, held) && |held| + |s| < b.Length
    modifies b
    ensures Holds(b, held + s)
  {
    var end := StrLen(b, held);
    StrCpy(b, end, s);
    assert b[..|held + s|] == b[..end] + b[end..end + |s|];
  }
}
