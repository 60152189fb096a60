/**
 * The pieces of Python's `str` library that the service leans on, restricted to
 * ASCII: `strip()`, `splitlines()`, `split(sep)`, `split(sep, 1)`, `startswith`,
 * `isdigit()` and `int()` on a digit string.
 */
module PyStr {

  /** `str.isspace` on the ASCII range: tab, LF, VT, FF, CR, the four separators 0x1C-0x1F, space. */
  predicate IsSpace(c: char) {
    c == ' ' || ('\t' <= c <= '\r') || ('\U{1C}' <= c <= '\U{1F}')
  }

  predicate AllSpace(s: string) {
    forall i :: 0 <= i < |s| ==> IsSpace(s[i])
  }

  /** Leading whitespace removed: what remains is a suffix of `s` that does not start with whitespace. */
  function TrimLeft(s: string): (r: string)
    ensures |r| <= |s| && r == s[|s| - |r|..]
    ensures AllSpace(s[..|s| - |r|])
    ensures r == [] || !IsSpace(r[0])
  {
    if s != [] && IsSpace(s[0]) then
      var r := TrimLeft(s[1..]);
      assert s[..|s| - |r|] == [s[0]] + s[1..][..|s| - 1 - |r|];
      r
    else s
  }

  /** Trailing whitespace removed: what remains is a prefix of `s` that does not end with whitespace. */
  function TrimRight(s: string): (r: string)
    ensures |r| <= |s| && r == s[..|r|]
    ensures AllSpace(s[|r|..])
    ensures r == [] || !IsSpace(r[|r| - 1])
  {
    if s != [] && IsSpace(s[|s| - 1]) then
      var r := TrimRight(s[..|s| - 1]);
      assert s[|r|..] == s[..|s| - 1][|r|..] + [s[|s| - 1]];
      r
    else s
  }

  /** `s` consists of whitespace, then `r` starting at index `i`, then whitespace. */
  predicate Framed(s: string, i: int, r: string) {
    0 <= i && i + |r| <= |s| && r == s[i..i + |r|] && AllSpace(s[..i]) && AllSpace(s[i + |r|..])
  }

  /** `str.strip()`. */
  function Strip(s: string): (r: string)
    ensures |r| <= |s|
    ensures r == [] || (!IsSpace(r[0]) && !IsSpace(r[|r| - 1]))
  {
    TrimRight(TrimLeft(s))
  }

  /**
   * `strip` keeps the contiguous middle of `s` that lies between leading and
   * trailing whitespace (that the middle is unpadded is `Strip`'s own contract).
   */
  lemma StripShape(s: string)
    ensures exists i :: Framed(s, i, Strip(s))
  {
    var left := TrimLeft(s);
    var r := TrimRight(left);
    assert r == Strip(s);
    assert Framed(s, |s| - |left|, r) by {
      var i := |s| - |left|;
      assert s[i..i + |r|] == left[..|r|];
      assert s[i + |r|..] == left[|r|..];
    }
  }

  /** Text that neither starts nor ends with whitespace is left as it is. */
  lemma StripKeepsUnpadded(s: string)
    requires s != [] && !IsSpace(s[0]) && !IsSpace(s[|s| - 1])
    ensures Strip(s) == s
  {
  }

  /** A final LF after unpadded text is stripped away. */
  lemma StripDropsFinalNewline(s: string)
    requires s != [] && !IsSpace(s[0]) && !IsSpace(s[|s| - 1])
    ensures Strip(s + "\n") == s
  {
    var t := s + "\n";
    assert TrimLeft(t) == t;
    assert t[..|t| - 1] == s;
  }

  /** One leading space and a final LF around unpadded text are stripped away. */
  lemma StripSpaceAndNewline(s: string)
    requires s != [] && !IsSpace(s[0]) && !IsSpace(s[|s| - 1])
    ensures Strip(" " + s + "\n") == s
  {
    var t := " " + s + "\n";
    assert t[1..] == s + "\n";
    assert TrimLeft(t) == TrimLeft(s + "\n");
    StripDropsFinalNewline(s);
  }

  /** Text made only of whitespace strips to nothing. */
  lemma StripOfSpaceIsEmpty(s: string)
    requires AllSpace(s)
    ensures Strip(s) == []
  {
    StripShape(s);
  }

  // ---------------------------------------------------------------------
  // splitlines

  /** The ASCII line boundaries of `str.splitlines`: LF, CR (and CR LF as one), VT, FF, 0x1C-0x1E. */
  predicate IsLineBoundary(c: char) {
    c == '\n' || c == '\r' || c == '\U{0B}' || c == '\U{0C}' || ('\U{1C}' <= c <= '\U{1E}')
  }

  predicate NoLineBoundary(s: string) {
    forall i :: 0 <= i < |s| ==> !IsLineBoundary(s[i])
  }

  /** Index of the first line boundary in `s`, or `|s|` when there is none. */
  function LineEnd(s: string): (i: nat)
    ensures i <= |s| && NoLineBoundary(s[..i])
    ensures i < |s| ==> IsLineBoundary(s[i])
  {
    if s == [] || IsLineBoundary(s[0]) then 0 else 1 + LineEnd(s[1..])
  }

  /**
   * `str.splitlines()`: the lines of `s` without their terminators; a final
   * terminator does not open an empty last line, and "" has no lines.
   */
  function SplitLines(s: string): (r: seq<string>)
    ensures forall k :: 0 <= k < |r| ==> NoLineBoundary(r[k])
    ensures r == [] <==> s == []
    decreases |s|
  {
    if s == [] then []
    else
      var i := LineEnd(s);
      if i == |s| then [s]
      else
        var next := if s[i] == '\r' && i + 1 < |s| && s[i + 1] == '\n' then i + 2 else i + 1;
        [s[..i]] + SplitLines(s[next..])
  }

  /** Lines joined with LF between them, none after the last. */
  function JoinLines(ls: seq<string>): string {
    if ls == [] then []
    else if |ls| == 1 then ls[0]
    else ls[0] + "\n" + JoinLines(ls[1..])
  }

  lemma LineEndAt(a: string, b: string)
    requires NoLineBoundary(a) && b != [] && IsLineBoundary(b[0])
    ensures LineEnd(a + b) == |a|
  {
    if a != [] {
      assert (a + b)[1..] == a[1..] + b;
      LineEndAt(a[1..], b);
    }
  }

  lemma LineEndNone(a: string)
    requires NoLineBoundary(a)
    ensures LineEnd(a) == |a|
  {
    if a != [] {
      LineEndNone(a[1..]);
    }
  }

  /** A line terminator of `splitlines`: CR LF, or any one line boundary. */
  predicate IsTerminator(t: string) {
    t == "\r\n" || (|t| == 1 && IsLineBoundary(t[0]))
  }

  /**
   * A line free of boundaries followed by any terminator is the first line of
   * what `splitlines` returns; a lone CR must not be followed by LF, since
   * the two would form one CR LF terminator.
   */
  lemma SplitLinesTerminated(a: string, t: string, rest: string)
    requires NoLineBoundary(a) && IsTerminator(t)
    requires t == "\r" ==> rest == [] || rest[0] != '\n'
    ensures SplitLines(a + t + rest) == [a] + SplitLines(rest)
  {
    var s := a + t + rest;
    assert s == a + (t + rest);
    LineEndAt(a, t + rest);
    assert s[..|a|] == a;
    assert s[|a| + |t|..] == rest;
    var next := if s[|a|] == '\r' && |a| + 1 < |s| && s[|a| + 1] == '\n' then |a| + 2 else |a| + 1;
    assert next == |a| + |t| by {
      assert s[|a|] == t[0];
      if |t| == 2 {
        assert s[|a| + 1] == '\n';
      } else if t == "\r" && rest != [] {
        assert s[|a| + 1] == rest[0];
      }
    }
  }

  /** CR LF ends one line, not two. */
  lemma SplitLinesCrLf()
    ensures SplitLines("a\r\nb") == ["a", "b"]
  {
    assert "a\r\nb" == "a" + "\r\n" + "b";
    SplitLinesTerminated("a", "\r\n", "b");
    LineEndNone("b");
  }

  /** A line free of boundaries followed by LF is the first line of what `splitlines` returns. */
  lemma SplitLinesStep(a: string, rest: string)
    requires NoLineBoundary(a)
    ensures SplitLines(a + "\n" + rest) == [a] + SplitLines(rest)
  {
    var s := a + "\n" + rest;
    assert s == a + ("\n" + rest);
    LineEndAt(a, "\n" + rest);
    assert s[|a|] == '\n';
    assert s[..|a|] == a;
    assert s[|a| + 1..] == rest;
  }

  /** Two lines joined by LF split back into those two lines. */
  lemma SplitTwoLines(a: string, b: string)
    requires NoLineBoundary(a) && NoLineBoundary(b) && b != []
    ensures SplitLines(a + "\n" + b) == [a, b]
  {
    SplitLinesStep(a, b);
    LineEndNone(b);
  }

  /** `splitlines` undoes `JoinLines` when no line holds a boundary and the last line is not empty. */
  lemma {:induction false} SplitLinesJoinLines(ls: seq<string>)
    requires forall k :: 0 <= k < |ls| ==> NoLineBoundary(ls[k])
    requires ls != [] ==> ls[|ls| - 1] != []
    ensures SplitLines(JoinLines(ls)) == ls
  {
    if ls == [] {
    } else if |ls| == 1 {
      LineEndNone(ls[0]);
    } else {
      assert JoinLines(ls) == ls[0] + "\n" + JoinLines(ls[1..]);
      SplitLinesStep(ls[0], JoinLines(ls[1..]));
      SplitLinesJoinLines(ls[1..]);
      assert [ls[0]] + ls[1..] == ls;
    }
  }

  // ---------------------------------------------------------------------
  // split(sep) and split(sep, 1)

  /** Fields joined with the separator between them; the inverse of `Split`. */
  function JoinWith(parts: seq<string>, sep: char): string
    requires parts != []
  {
    if |parts| == 1 then parts[0] else parts[0] + [sep] + JoinWith(parts[1..], sep)
  }

  /** Index of the first `c` in `s`, or `|s|` when there is none. */
  function IndexOf(s: string, c: char): (i: nat)
    ensures i <= |s| && c !in s[..i]
    ensures i < |s| ==> s[i] == c
  {
    if s == [] || s[0] == c then 0
    else
      assert s[..1 + IndexOf(s[1..], c)] == [s[0]] + s[1..][..IndexOf(s[1..], c)];
      1 + IndexOf(s[1..], c)
  }

  /**
   * `s.split(sep)` for a one-character separator: at least one field, and no
   * field contains the separator.
   */
  function Split(s: string, sep: char): (r: seq<string>)
    ensures r != []
    ensures forall k :: 0 <= k < |r| ==> sep !in r[k]
    decreases |s|
  {
    var i := IndexOf(s, sep);
    if i == |s| then
      assert s[..i] == s;
      [s]
    else [s[..i]] + Split(s[i + 1..], sep)
  }

  /** Joining the fields back with the separator gives the text that was split. */
  lemma {:induction false} JoinWithSplit(s: string, sep: char)
    ensures JoinWith(Split(s, sep), sep) == s
    decreases |s|
  {
    var i := IndexOf(s, sep);
    if i < |s| {
      JoinWithSplit(s[i + 1..], sep);
      var r := Split(s, sep);
      assert r[1..] == Split(s[i + 1..], sep);
      assert s == s[..i] + [sep] + s[i + 1..];
    }
  }

  /** The first field of `a + [sep] + b` is `a` itself, when `a` holds no separator. */
  lemma IndexOfAt(a: string, b: string, sep: char)
    requires sep !in a
    ensures IndexOf(a + [sep] + b, sep) == |a|
  {
    if a != [] {
      assert (a + [sep] + b)[1..] == a[1..] + [sep] + b;
      IndexOfAt(a[1..], b, sep);
    }
  }

  /** A separator between `a` and `b` splits exactly there: the fields of `a`, then those of `b`. */
  lemma {:induction false} SplitAppend(a: string, b: string, sep: char)
    ensures Split(a + [sep] + b, sep) == Split(a, sep) + Split(b, sep)
    decreases |a|
  {
    var s := a + [sep] + b;
    var i := IndexOf(a, sep);
    if i == |a| {
      assert s[..|a|] == a && s[|a|] == sep && s[|a| + 1..] == b;
      SplitAt(s, |a|, sep);
      SplitFree(a, sep);
    } else {
      var rest := a[i + 1..] + [sep] + b;
      assert s[..i] == a[..i] && s[i] == sep && s[i + 1..] == rest by {
        assert a == a[..i] + a[i..];
      }
      SplitAt(s, i, sep);
      SplitAppend(a[i + 1..], b, sep);
      calc {
        Split(s, sep);
        [a[..i]] + Split(rest, sep);
        [a[..i]] + (Split(a[i + 1..], sep) + Split(b, sep));
        ([a[..i]] + Split(a[i + 1..], sep)) + Split(b, sep);
        Split(a, sep) + Split(b, sep);
      }
    }
  }

  /** `s` splits first at its first separator. */
  lemma SplitAt(s: string, i: nat, sep: char)
    requires i < |s| && s[i] == sep && sep !in s[..i]
    ensures Split(s, sep) == [s[..i]] + Split(s[i + 1..], sep)
  {
    IndexOfUnique(s, i, sep);
  }

  /** The first `c` is at `i` when `s[i]` is a `c` and none comes before it. */
  lemma IndexOfUnique(s: string, i: nat, c: char)
    requires i < |s| && s[i] == c && c !in s[..i]
    ensures IndexOf(s, c) == i
  {
    if i > 0 {
      assert s[0] == s[..i][0];
      assert s[1..][..i - 1] == s[..i][1..];
      IndexOfUnique(s[1..], i - 1, c);
    }
  }

  /** A text without the separator is a single field. */
  lemma SplitFree(s: string, sep: char)
    requires sep !in s
    ensures Split(s, sep) == [s]
  {
    assert s[..|s|] == s;
  }

  /** `Split` undoes `JoinWith` when no field holds the separator. */
  lemma {:induction false} SplitJoinWith(parts: seq<string>, sep: char)
    requires parts != []
    requires forall k :: 0 <= k < |parts| ==> sep !in parts[k]
    ensures Split(JoinWith(parts, sep), sep) == parts
  {
    if |parts| == 1 {
      SplitFree(parts[0], sep);
    } else {
      var tail := JoinWith(parts[1..], sep);
      SplitJoinWith(parts[1..], sep);
      SplitAppend(parts[0], tail, sep);
      SplitFree(parts[0], sep);
      calc {
        Split(JoinWith(parts, sep), sep);
        Split(parts[0] + [sep] + tail, sep);
        Split(parts[0], sep) + Split(tail, sep);
        [parts[0]] + parts[1..];
        parts;
      }
    }
  }

  /** There is one field more than there are separators. */
  lemma {:induction false} SplitCount(s: string, sep: char)
    ensures |Split(s, sep)| == multiset(s)[sep] + 1
    decreases |s|
  {
    var i := IndexOf(s, sep);
    assert s[..|s|] == s;
    if i < |s| {
      SplitCount(s[i + 1..], sep);
      assert s == s[..i] + [sep] + s[i + 1..];
    }
  }

  predicate StartsWith(s: string, prefix: string) {
    |prefix| <= |s| && s[..|prefix|] == prefix
  }

  /** `sep` occurs in `s` at index `i`. */
  predicate OccursAt(s: string, sep: string, i: int) {
    0 <= i && i + |sep| <= |s| && s[i..i + |sep|] == sep
  }

  /**
   * `s.split(sep, 1)`: `[s]` when `sep` does not occur in `s`, otherwise the text
   * before the first occurrence and the text after it.
   */
  function SplitOnce(s: string, sep: string): (r: seq<string>)
    requires sep != []
    ensures |r| == 1 || |r| == 2
    ensures |r| == 1 ==> r[0] == s && forall i :: !OccursAt(s, sep, i)
    ensures |r| == 2 ==> s == r[0] + sep + r[1] && OccursAt(s, sep, |r[0]|)
    ensures |r| == 2 ==> forall i :: 0 <= i < |r[0]| ==> !OccursAt(s, sep, i)
  {
    if |s| < |sep| then [s]
    else if s[..|sep|] == sep then
      assert s == [] + sep + s[|sep|..];
      [[], s[|sep|..]]
    else
      var rest := SplitOnce(s[1..], sep);
      OccursShift(s, sep);
      if |rest| == 1 then [s]
      else
        assert s == [s[0]] + s[1..];
        [[s[0]] + rest[0], rest[1]]
  }

  lemma OccursShift(s: string, sep: string)
    requires s != []
    ensures forall i :: 1 <= i ==> (OccursAt(s, sep, i) <==> OccursAt(s[1..], sep, i - 1))
  {
    forall i | 1 <= i
      ensures OccursAt(s, sep, i) <==> OccursAt(s[1..], sep, i - 1)
    {
      if i + |sep| <= |s| {
        var window, shifted := s[i..i + |sep|], s[1..][i - 1..i - 1 + |sep|];
        assert |window| == |shifted|;
        assert forall j :: 0 <= j < |window| ==> window[j] == s[i + j] == shifted[j];
        assert window == shifted;
      }
    }
  }

  /** When `s` starts with `sep`, `split(sep, 1)[1]` is everything after that prefix. */
  lemma SplitOnceAtStart(s: string, sep: string)
    requires sep != [] && StartsWith(s, sep)
    ensures SplitOnce(s, sep) == [[], s[|sep|..]]
  {
  }

  // ---------------------------------------------------------------------
  // isdigit and int

  predicate IsDigit(c: char) {
    '0' <= c <= '9'
  }

  /** `str.isdigit` on ASCII: non-empty and every character a decimal digit. */
  predicate IsDigits(s: string) {
    s != [] && forall i :: 0 <= i < |s| ==> IsDigit(s[i])
  }

  /** `int(s)` for a string of decimal digits (leading zeros allowed). */
  function DecimalValue(s: string): nat
    requires forall i :: 0 <= i < |s| ==> IsDigit(s[i])
  {
    if s == [] then 0
    else
      assert IsDigit(s[|s| - 1]);
      DecimalValue(s[..|s| - 1]) * 10 + (s[|s| - 1] as int - '0' as int)
  }

  /** `str(n)`: the decimal rendering of a natural number, without leading zeros. */
  function Decimal(n: nat): string {
    if n < 10 then [('0' as int + n) as char]
    else Decimal(n / 10) + [('0' as int + n % 10) as char]
  }

  /** Reading back a rendered number gives the number. */
  lemma {:induction false} DecimalRoundTrip(n: nat)
    ensures IsDigits(Decimal(n)) && DecimalValue(Decimal(n)) == n
  {
    if n >= 10 {
      DecimalRoundTrip(n / 10);
      var s := Decimal(n);
      assert s[..|s| - 1] == Decimal(n / 10);
    }
  }
}
