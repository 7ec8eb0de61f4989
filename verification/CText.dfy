/** C strings as Dafny strings: decimal printing and parsing, strtok-style tokens, joining and splitting. */
module CText {
  import opened Words
  import opened Sequences

  const NUL: char := '\0'

  type CString = s: string | NUL !in s

  // ----- Decimal digits -----

  predicate IsDigit(c: char) {
    '0' <= c <= '9'
  }

  predicate AllDigits(s: string) {
    forall i :: 0 <= i < |s| ==> IsDigit(s[i])
  }

  function DigitChar(d: int): (c: char)
    requires 0 <= d < 10
    ensures IsDigit(c) && DigitValue(c) == d
  {
    (('0' as int) + d) as char
  }

  function DigitValue(c: char): (d: int)
    requires IsDigit(c)
    ensures 0 <= d < 10
  {
    (c as int) - ('0' as int)
  }

  // What printf's unsigned decimal conversion prints.
  function Decimal(n: nat): (s: CString)
    ensures |s| > 0 && AllDigits(s)
  {
    if n < 10 then [DigitChar(n)] else Decimal(n / 10) + [DigitChar(n % 10)]
  }

  function Number(s: string): nat
    requires AllDigits(s)
  {
    if s == [] then 0 else 10 * Number(s[..|s| - 1]) + DigitValue(s[|s| - 1])
  }

  lemma {:induction false} NumberOfDecimal(n: nat)
    ensures Number(Decimal(n)) == n
  {
    if n >= 10 {
      var s := Decimal(n);
      assert s[..|s| - 1] == Decimal(n / 10);
      NumberOfDecimal(n / 10);
    } else {
      assert Decimal(n)[..0] == [];
    }
  }

  function Pow10(k: nat): nat {
    if k == 0 then 1 else 10 * Pow10(k - 1)
  }

  lemma {:induction false} DecimalLength(n: nat, k: nat)
    requires k >= 1 && n < Pow10(k)
    ensures |Decimal(n)| <= k
  {
    if n >= 10 {
      assert k >= 2;
      DecimalLength(n / 10, k - 1);
    }
  }

  // A uint64_t prints to at most 20 digits.
  lemma WordFitsTwentyDigits(n: Word64)
    ensures |Decimal(n)| <= 20
  {
    assert Pow10(5) == 100_000;
    assert Pow10(10) == 100_000 * 100_000;
    assert Pow10(15) == 100_000 * 100_000 * 100_000;
    assert Pow10(20) == 100_000_000_000_000_000_000;
    DecimalLength(n, 20);
  }

  // The ten digits, and the place value of the last one.
  lemma DecimalDigits(n: nat, d: nat)
    requires d < 10
    ensures Decimal(d) == ["0123456789"[d]]
    ensures n > 0 ==> Decimal(10 * n + d) == Decimal(n) + Decimal(d)
  {
    assert "0123456789"[d] == DigitChar(d);
    assert n > 0 ==> (10 * n + d) / 10 == n && (10 * n + d) % 10 == d;
  }

  // ----- strtoull and strtoll in base 10 -----

  predicate IsSpace(c: char) {
    c == ' ' || c == '\t' || c == '\n' || c == '\r' || c == 11 as char || c == 12 as char
  }

  function SkipSpace(s: string): string {
    if s != [] && IsSpace(s[0]) then SkipSpace(s[1..]) else s
  }

  function DigitPrefix(s: string): (p: string)
    ensures AllDigits(p)
  {
    if s != [] && IsDigit(s[0]) then [s[0]] + DigitPrefix(s[1..]) else []
  }

  // The integer both conversions read: optional spaces, an optional sign, then digits up to the first other character.
  function ScannedMagnitude(s: string): nat {
    var t := SkipSpace(s);
    Number(DigitPrefix(if t != [] && (t[0] == '-' || t[0] == '+') then t[1..] else t))
  }

  predicate ScannedNegative(s: string) {
    var t := SkipSpace(s);
    t != [] && t[0] == '-'
  }

  function Strtoull(s: string): Word64 {
    var v := ScannedMagnitude(s);
    if v >= TWO_64 then TWO_64 - 1
    else if ScannedNegative(s) && v > 0 then TWO_64 - v
    else v
  }

  function Strtoll(s: string): Int64 {
    var m: int := ScannedMagnitude(s);
    var v := if ScannedNegative(s) then -m else m;
    if v >= TWO_63 then TWO_63 - 1 else if v < -TWO_63 then -TWO_63 else v
  }

  lemma {:induction false} DigitPrefixOfDigits(s: string)
    requires AllDigits(s)
    ensures DigitPrefix(s) == s
  {
    if s != [] {
      DigitPrefixOfDigits(s[1..]);
    }
  }

  lemma ScanDecimal(n: nat)
    ensures ScannedMagnitude(Decimal(n)) == n && !ScannedNegative(Decimal(n))
  {
    var s := Decimal(n);
    assert IsDigit(s[0]);
    DigitPrefixOfDigits(s);
    NumberOfDecimal(n);
  }

  // ----- What the two conversions read -----

  predicate AllSpaces(s: string) {
    forall i :: 0 <= i < |s| ==> IsSpace(s[i])
  }

  lemma {:induction false} SkipSpaces(spaces: string, rest: string)
    requires AllSpaces(spaces) && (rest == [] || !IsSpace(rest[0]))
    ensures SkipSpace(spaces + rest) == rest
  {
    if spaces == [] {
      assert [] + rest == rest;
    } else {
      assert (spaces + rest)[1..] == spaces[1..] + rest;
      SkipSpaces(spaces[1..], rest);
    }
  }

  lemma {:induction false} DigitsThenOther(digits: string, rest: string)
    requires AllDigits(digits) && (rest == [] || !IsDigit(rest[0]))
    ensures DigitPrefix(digits + rest) == digits
  {
    if digits == [] {
      assert [] + rest == rest;
    } else {
      assert (digits + rest)[1..] == digits[1..] + rest;
      DigitsThenOther(digits[1..], rest);
      assert [digits[0]] + digits[1..] == digits;
    }
  }

  // Spaces, then perhaps a sign, then digits, then anything that is not a digit.
  lemma ScanText(spaces: string, sign: string, digits: string, rest: string)
    requires AllSpaces(spaces) && sign in ["", "+", "-"] && AllDigits(digits) && (rest == [] || !IsDigit(rest[0]))
    requires sign == "" && digits == [] ==> rest == [] || (!IsSpace(rest[0]) && rest[0] != '+' && rest[0] != '-')
    ensures var s := spaces + (sign + (digits + rest));
      ScannedMagnitude(s) == Number(digits) && (ScannedNegative(s) <==> sign == "-")
  {
    var tail := digits + rest;
    var text := sign + tail;
    DigitsThenOther(digits, rest);
    assert digits != [] ==> tail[0] == digits[0];
    if sign == "" {
      assert text == tail;
    } else {
      assert text[0] == sign[0] && text[1..] == tail;
    }
    SkipSpaces(spaces, text);
  }

  // Unsigned: a negated number wraps below zero, one that is too large is cut to the largest value, and text
  // without digits reads as 0.
  lemma StrtoullReads(spaces: string, sign: string, digits: string, rest: string)
    requires AllSpaces(spaces) && sign in ["", "+", "-"] && AllDigits(digits) && (rest == [] || !IsDigit(rest[0]))
    requires sign == "" && digits == [] ==> rest == [] || (!IsSpace(rest[0]) && rest[0] != '+' && rest[0] != '-')
    ensures var n, r := Number(digits), Strtoull(spaces + (sign + (digits + rest)));
      && (digits == [] ==> r == 0)
      && (n > 18_446_744_073_709_551_615 ==> r == 18_446_744_073_709_551_615)
      && (n <= 18_446_744_073_709_551_615 && sign != "-" ==> r == n)
      && (0 < n <= 18_446_744_073_709_551_615 && sign == "-" ==> r + n == 18_446_744_073_709_551_616)
  {
    ScanText(spaces, sign, digits, rest);
  }

  // Signed: cut to the nearest end of the range.
  lemma StrtollReads(spaces: string, sign: string, digits: string, rest: string)
    requires AllSpaces(spaces) && sign in ["", "+", "-"] && AllDigits(digits) && (rest == [] || !IsDigit(rest[0]))
    requires sign == "" && digits == [] ==> rest == [] || (!IsSpace(rest[0]) && rest[0] != '+' && rest[0] != '-')
    ensures var n: int := Number(digits);
      var r := Strtoll(spaces + (sign + (digits + rest)));
      && (sign != "-" ==> r == if n > 9_223_372_036_854_775_807 then 9_223_372_036_854_775_807 else n)
      && (sign == "-" ==> r == if n > 9_223_372_036_854_775_808 then -9_223_372_036_854_775_808 else -n)
  {
    ScanText(spaces, sign, digits, rest);
  }

  // The six characters that count as space.
  lemma SpaceCharacters(c: char)
    ensures IsSpace(c) <==> c in [' ', '\t', '\n', '\U{0B}', '\U{0C}', '\r']
  {
  }

  // ----- Scanning for a character -----

  function Count(s: string, c: char): nat {
    if s == [] then 0 else (if s[0] == c then 1 else 0) + Count(s[1..], c)
  }

  lemma {:induction false} CountAppend(a: string, b: string, c: char)
    ensures Count(a + b, c) == Count(a, c) + Count(b, c)
  {
    if a == [] {
      assert a + b == b;
    } else {
      assert (a + b)[1..] == a[1..] + b;
      CountAppend(a[1..], b, c);
    }
  }

  lemma {:induction false} CountZero(s: string, c: char)
    ensures Count(s, c) == 0 <==> c !in s
  {
    if s != [] {
      CountZero(s[1..], c);
      assert s == [s[0]] + s[1..];
    }
  }

  // Where the run of other characters that starts at `from` ends.
  method TokenEnd(s: string, delim: char, from: nat) returns (end: nat)
    requires from <= |s|
    ensures from <= end <= |s| && delim !in s[from..end] && (end < |s| ==> s[end] == delim)
  {
    end := from;
    while end < |s| && s[end] != delim
      invariant from <= end <= |s| && delim !in s[from..end]
    {
      assert s[from..end + 1] == s[from..end] + [s[end]];
      end := end + 1;
    }
  }

  // ----- Tokens, joining and splitting -----

  // Length of the leading run of characters other than `sep`.
  function Run(s: string, sep: char): (n: nat)
    ensures n <= |s|
    ensures sep !in s[..n]
    ensures n < |s| ==> s[n] == sep
  {
    if s == [] || s[0] == sep then 0 else 1 + Run(s[1..], sep)
  }

  // The tokens strtok yields one by one: the maximal non-empty runs between separators.
  function Tokens(s: string, sep: char): seq<string>
    decreases |s|
  {
    if s == [] then []
    else if s[0] == sep then Tokens(s[1..], sep)
    else [s[..Run(s, sep)]] + Tokens(s[Run(s, sep)..], sep)
  }

  // Every piece between separators, empty ones included.
  function Split(s: string, sep: char): (r: seq<string>)
    ensures |r| > 0
    decreases |s|
  {
    var n := Run(s, sep);
    if n == |s| then [s] else [s[..n]] + Split(s[n + 1..], sep)
  }

  function Join(parts: seq<string>, sep: char): string {
    if |parts| == 0 then ""
    else if |parts| == 1 then parts[0]
    else parts[0] + [sep] + Join(parts[1..], sep)
  }

  function Texts(groups: seq<seq<string>>, sep: char): (r: seq<string>)
    ensures |r| == |groups| && forall i :: 0 <= i < |groups| ==> r[i] == Join(groups[i], sep)
  {
    seq(|groups|, i requires 0 <= i < |groups| => Join(groups[i], sep))
  }

  lemma TextsCons(group: seq<string>, groups: seq<seq<string>>, sep: char)
    ensures Texts([group] + groups, sep) == [Join(group, sep)] + Texts(groups, sep)
  {
  }

  // Pieces strtok can give back: non-empty and free of the separator.
  predicate ProperTokens(parts: seq<string>, sep: char) {
    forall i :: 0 <= i < |parts| ==> parts[i] != "" && sep !in parts[i]
  }

  lemma {:induction false} RunOf(a: string, b: string, sep: char)
    requires sep !in a && (b == [] || b[0] == sep)
    ensures Run(a + b, sep) == |a|
  {
    if a == [] {
      assert a + b == b;
    } else {
      assert (a + b)[1..] == a[1..] + b;
      RunOf(a[1..], b, sep);
    }
  }

  lemma {:induction false} TokensOfJoin(parts: seq<string>, sep: char)
    requires ProperTokens(parts, sep)
    ensures Tokens(Join(parts, sep), sep) == parts
  {
    if |parts| > 0 {
      var rest := if |parts| == 1 then [] else [sep] + Join(parts[1..], sep);
      var s := Join(parts, sep);
      assert s == parts[0] + rest;
      RunOf(parts[0], rest, sep);
      assert s[..|parts[0]|] == parts[0] && s[|parts[0]|..] == rest;
      TokensOfJoin(parts[1..], sep);
      if |parts| > 1 {
        assert rest[1..] == Join(parts[1..], sep);
      }
      assert Tokens(rest, sep) == parts[1..];
    }
  }

  lemma {:induction false} TokensAreProper(s: string, sep: char)
    ensures ProperTokens(Tokens(s, sep), sep)
    decreases |s|
  {
    if s != [] {
      if s[0] == sep {
        TokensAreProper(s[1..], sep);
      } else {
        TokensAreProper(s[Run(s, sep)..], sep);
      }
    }
  }

  lemma {:induction false} JoinConcat(a: seq<string>, b: seq<string>, sep: char)
    requires a != [] && b != []
    ensures Join(a + b, sep) == Join(a, sep) + [sep] + Join(b, sep)
  {
    if |a| == 1 {
      assert (a + b)[1..] == b;
    } else {
      assert (a + b)[1..] == a[1..] + b;
      JoinConcat(a[1..], b, sep);
    }
  }

  // A joined list is at least as long as any stretch of it joined.
  lemma JoinGrows(a: seq<string>, b: seq<string>, c: seq<string>, sep: char)
    ensures |Join(b, sep)| <= |Join(a + b + c, sep)|
  {
    if b != [] {
      if a != [] {
        JoinConcat(a, b, sep);
      } else {
        assert a + b == b;
      }
      if c != [] {
        JoinConcat(a + b, c, sep);
      } else {
        assert a + b + c == a + b;
      }
    }
  }

  // Splitting a joined list splits every piece of it.
  lemma {:induction false} SplitOfJoin(parts: seq<string>, sep: char)
    requires parts != []
    ensures Split(Join(parts, sep), sep) == Concat(seq(|parts|, i requires 0 <= i < |parts| => Split(parts[i], sep)))
  {
    var pieces := seq(|parts|, i requires 0 <= i < |parts| => Split(parts[i], sep));
    if |parts| == 1 {
      assert pieces == [Split(parts[0], sep)];
      assert Concat(pieces) == Split(parts[0], sep) + Concat([]);
    } else {
      var tail := parts[1..];
      SplitOfJoin(tail, sep);
      assert pieces[1..] == seq(|tail|, i requires 0 <= i < |tail| => Split(tail[i], sep));
      SplitAppend(parts[0], Join(tail, sep), sep);
    }
  }

  lemma {:induction false} SplitAppend(a: string, b: string, sep: char)
    ensures Split(a + [sep] + b, sep) == Split(a, sep) + Split(b, sep)
    decreases |a|
  {
    var n := Run(a, sep);
    if n == |a| {
      assert a[..n] == a;
      SplitFirst(a, b, sep);
    } else {
      var run, rest := a[..n], a[n + 1..];
      SplitAppend(rest, b, sep);
      CutAt(a, n);
      SplitAppendRun(a, run, rest, b, sep);
    }
  }

  lemma SplitAppendRun(a: string, run: string, rest: string, b: string, sep: char)
    requires sep !in run && a == run + [sep] + rest
    requires Split(rest + [sep] + b, sep) == Split(rest, sep) + Split(b, sep)
    ensures Split(a + [sep] + b, sep) == Split(a, sep) + Split(b, sep)
  {
    var tail := rest + [sep] + b;
    SplitFirst(run, rest, sep);
    SplitFirst(run, tail, sep);
    RegroupAround(run, sep, rest, b);
    assert a + [sep] + b == run + [sep] + tail;
    Regroup(run, Split(rest, sep), Split(b, sep));
  }

  // The first piece of a run followed by a separator and the rest.
  lemma SplitFirst(run: string, rest: string, sep: char)
    requires sep !in run
    ensures Split(run + [sep] + rest, sep) == [run] + Split(rest, sep)
  {
    var s := run + [sep] + rest;
    assert s == run + ([sep] + rest);
    RunOf(run, [sep] + rest, sep);
    assert s[..|run|] == run && s[|run| + 1..] == rest;
  }

  // strtok's tokens are the pieces between separators without the empty ones.
  lemma {:induction false} TokensAreNonEmptyPieces(s: string, sep: char)
    ensures Tokens(s, sep) == NonEmpty(Split(s, sep))
    decreases |s|
  {
    var n := Run(s, sep);
    if n == |s| {
      assert s[..n] == s && s[n..] == [];
      assert NonEmpty([s]) == if s == [] then [] else [s];
    } else {
      var rest := s[n + 1..];
      TokensAreNonEmptyPieces(rest, sep);
      assert s[n..][0] == sep && s[n..][1..] == rest;
      assert ([s[..n]] + Split(rest, sep))[1..] == Split(rest, sep);
      if n == 0 {
        assert s[n..] == s;
      }
    }
  }

  function NonEmpty(parts: seq<string>): seq<string> {
    if parts == [] then [] else (if parts[0] == "" then [] else [parts[0]]) + NonEmpty(parts[1..])
  }

  // Joining the pieces again gives back the string, and no piece holds a separator: splitting is the inverse.
  lemma {:induction false} JoinOfSplit(s: string, sep: char)
    ensures Join(Split(s, sep), sep) == s
    decreases |s|
  {
    var n := Run(s, sep);
    if n == |s| {
      assert s[..n] == s;
    } else {
      JoinOfSplit(s[n + 1..], sep);
      CutAt(s, n);
      JoinCons(s[..n], Split(s[n + 1..], sep), sep);
    }
  }

  lemma JoinCons(first: string, rest: seq<string>, sep: char)
    requires rest != []
    ensures Join([first] + rest, sep) == first + [sep] + Join(rest, sep)
  {
    assert ([first] + rest)[1..] == rest;
  }

  lemma {:induction false} PiecesAreFree(s: string, sep: char)
    ensures forall i :: 0 <= i < |Split(s, sep)| ==> sep !in Split(s, sep)[i]
    decreases |s|
  {
    var n := Run(s, sep);
    if n == |s| {
      assert s[..n] == s;
    } else {
      PiecesAreFree(s[n + 1..], sep);
    }
  }
}
