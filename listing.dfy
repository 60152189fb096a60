/**
 * The parsing half of `list_sessions` (scripts/tmux-api.py): the output of
 * `tmux ls -F "#{session_name}\t#{session_windows}\t#{session_attached}"` is
 * stripped once, cut into lines, each line cut on tabs, and every line with at
 * least three fields becomes one session record.
 */
module Listing {
  import opened Wrappers
  import opened PyStr
  import opened SessionName

  /** One entry of the `{"sessions": [...]}` reply. */
  datatype Session = Session(name: string, windows: nat, attached: bool)

  /** `int(windows) if windows.isdigit() else 0`. */
  function WindowCount(field: string): nat {
    if IsDigits(field) then DecimalValue(field) else 0
  }

  /**
   * A window count tmux prints is read back as that number; a field that is
   * not all digits (empty, signed, spaced) counts as no windows.
   */
  lemma WindowCountOfDecimal(n: nat, field: string)
    ensures WindowCount(Decimal(n)) == n
    ensures !IsDigits(field) ==> WindowCount(field) == 0
  {
    DecimalRoundTrip(n);
  }

  /** One output line: a record from its first three tab-separated fields, if it has three. */
  function ParseLine(line: string): (r: Option<Session>)
    ensures r.Some? ==> '\t' !in r.value.name
  {
    var parts := Split(line, '\t');
    if |parts| < 3 then None
    else Some(Session(parts[0], WindowCount(parts[1]), parts[2] == "1"))
  }

  /**
   * A line yields a record exactly when it holds at least two tabs, and the
   * record's name is then the text before the first tab.
   */
  lemma ParseLineShape(line: string)
    ensures ParseLine(line).Some? <==> multiset(line)['\t'] >= 2
    ensures ParseLine(line).Some? ==>
      '\t' !in ParseLine(line).value.name && ParseLine(line).value.name + ['\t'] <= line
  {
    SplitCount(line, '\t');
    JoinWithSplit(line, '\t');
  }

  /** The record of one line as a sequence: one element or none. */
  function Record(line: string): seq<Session> {
    match ParseLine(line)
    case None => []
    case Some(s) => [s]
  }

  /** The records of a sequence of lines, in line order; lines without a record are skipped. */
  function ParseLines(lines: seq<string>): seq<Session> {
    if lines == [] then [] else Record(lines[0]) + ParseLines(lines[1..])
  }

  /** Each line gives at most one record. */
  lemma {:induction false} ParseLinesAtMostOneEach(lines: seq<string>)
    ensures |ParseLines(lines)| <= |lines|
  {
    if lines != [] {
      ParseLinesAtMostOneEach(lines[1..]);
    }
  }

  /** `out.strip().splitlines()`, each line parsed. */
  function ParseOutput(out: string): (r: seq<Session>)
    ensures |r| <= |SplitLines(Strip(out))|
  {
    var lines := SplitLines(Strip(out));
    ParseLinesAtMostOneEach(lines);
    ParseLines(lines)
  }

  /** `list_sessions()`: a failing `tmux ls` (no server, say) lists no sessions. */
  function SessionsOf(output: Option<string>): (r: seq<Session>)
    ensures output.None? ==> r == []
    ensures output.Some? ==> |r| <= |SplitLines(Strip(output.value))|
  {
    match output
    case None => []
    case Some(out) => ParseOutput(out)
  }

  /**
   * The loop of `list_sessions`: append one record per line with at least
   * three tab-separated fields. `output` is what `tmux ls` printed, or None
   * when it exited non-zero.
   */
  method ListSessions(output: Option<string>) returns (sessions: seq<Session>)
    ensures sessions == SessionsOf(output)
  {
    if output.None? {
      return [];
    }
    var lines := SplitLines(Strip(output.value));
    sessions := [];
    for i := 0 to |lines|
      invariant sessions == ParseLines(lines[..i])
    {
      assert lines[..i + 1] == lines[..i] + [lines[i]];
      ParseLinesSnoc(lines[..i], lines[i]);
      var parts := Split(lines[i], '\t');
      if |parts| < 3 {
        continue;
      }
      var name, windows, attached := parts[0], parts[1], parts[2];
      sessions := sessions + [Session(name, if IsDigits(windows) then DecimalValue(windows) else 0, attached == "1")];
    }
    assert lines[..|lines|] == lines;
  }

  /** Parsing is line by line: the records of two blocks of lines are those of each, in order. */
  lemma {:induction false} ParseLinesAppend(a: seq<string>, b: seq<string>)
    ensures ParseLines(a + b) == ParseLines(a) + ParseLines(b)
  {
    if a == [] {
      assert a + b == b;
    } else {
      assert (a + b)[0] == a[0] && (a + b)[1..] == a[1..] + b;
      ParseLinesAppend(a[1..], b);
    }
  }

  /** One more line adds its record, if any, at the end. */
  lemma ParseLinesSnoc(lines: seq<string>, line: string)
    ensures ParseLines(lines + [line]) == ParseLines(lines) + Record(line)
  {
    ParseLinesAppend(lines, [line]);
    ParseLinesSingle(line);
  }

  /** A single line gives its record, or nothing. */
  lemma ParseLinesSingle(line: string)
    ensures ParseLines([line]) == Record(line)
  {
    assert [line][1..] == [];
  }

  /** Each line contributes at most one record, exactly when it has three fields. */
  lemma {:induction false} ParseLinesOneEach(a: seq<string>, line: string, b: seq<string>)
    ensures ParseLine(line).Some? ==>
      ParseLines(a + [line] + b) == ParseLines(a) + [ParseLine(line).value] + ParseLines(b)
    ensures ParseLine(line).None? ==>
      ParseLines(a + [line] + b) == ParseLines(a) + ParseLines(b)
  {
    ParseLinesAround(a, line, b);
    if ParseLine(line).None? {
      assert ParseLines(a) + Record(line) == ParseLines(a);
    }
  }

  /** The records around one line: those before it, its own, those after it. */
  lemma ParseLinesAround(a: seq<string>, line: string, b: seq<string>)
    ensures ParseLines(a + [line] + b) == ParseLines(a) + Record(line) + ParseLines(b)
  {
    ParseLinesAppend(a + [line], b);
    ParseLinesAppend(a, [line]);
    ParseLinesSingle(line);
  }

  /** No listed session name holds a tab, whatever the lines say. */
  lemma {:induction false} ParsedNamesHaveNoTab(lines: seq<string>)
    ensures forall k :: 0 <= k < |ParseLines(lines)| ==> '\t' !in ParseLines(lines)[k].name
  {
    if lines != [] {
      ParsedNamesHaveNoTab(lines[1..]);
    }
  }

  /** Output that is empty or only whitespace lists no sessions. */
  lemma BlankOutputListsNothing(out: string)
    requires AllSpace(out)
    ensures ParseOutput(out) == []
  {
    StripOfSpaceIsEmpty(out);
  }

  /**
   * The fields of any three-field line: the name is the first field as it
   * stands, the window count is `int` of an all-digit second field (else 0),
   * and the session is attached exactly when the third field is `"1"`.
   */
  lemma FieldsOfLine(a: string, b: string, c: string)
    requires '\t' !in a && '\t' !in b && '\t' !in c
    ensures ParseLine(a + ['\t'] + b + ['\t'] + c) == Some(Session(a, WindowCount(b), c == "1"))
  {
    var parts := [a, b, c];
    assert parts[1..][1..] == [c];
    assert JoinWith(parts[1..], '\t') == b + ['\t'] + c;
    assert JoinWith(parts, '\t') == a + ['\t'] + b + ['\t'] + c;
    SplitJoinWith(parts, '\t');
  }

  /**
   * `#{session_attached}` counts clients: a session with two of them is
   * listed as not attached.
   */
  lemma TwoClientsReadAsDetached()
    ensures ParseLine("work\t3\t2") == Some(Session("work", 3, false))
  {
    var name, count, flag := "work", "3", "2";
    assert '\t' !in name && '\t' !in count && '\t' !in flag;
    assert "work\t3\t2" == name + ['\t'] + count + ['\t'] + flag;
    FieldsOfLine(name, count, flag);
    assert Decimal(3) == count;
    WindowCountOfDecimal(3, count);
  }

  /**
   * The output is stripped as a whole, not line by line: of two sessions
   * whose names tmux prints after a space, only the first loses it.
   */
  lemma StripOnlyTrimsFirstName(x: string, y: string)
    requires ValidName(x) && ValidName(y)
    ensures ParseOutput(" " + x + "\t1\t0\n " + y + "\t1\t0\n")
         == [Session(x, 1, false), Session(" " + y, 1, false)]
  {
    var first, second := x + "\t1\t0", " " + y + "\t1\t0";
    var body := first + "\n" + second;
    TwoLineOutput(x, y);
    PlainName(x);
    PlainName(" " + y);
    ParsePaddedOutput(body);
    SplitTwoLines(first, second);
    ParseLinesPair(first, second);
  }

  /** How the two-session output of `StripOnlyTrimsFirstName` is laid out. */
  lemma TwoLineOutput(x: string, y: string)
    requires x != []
    ensures var body := (x + "\t1\t0") + "\n" + (" " + y + "\t1\t0");
      " " + x + "\t1\t0\n " + y + "\t1\t0\n" == " " + body + "\n"
      && body[0] == x[0] && body[|body| - 1] == '0'
  {
  }

  /** Output framed by one space and a final LF parses as the text inside. */
  lemma ParsePaddedOutput(body: string)
    requires body != [] && !IsSpace(body[0]) && !IsSpace(body[|body| - 1])
    ensures ParseOutput(" " + body + "\n") == ParseLines(SplitLines(body))
  {
    StripSpaceAndNewline(body);
  }

  /**
   * A valid name, or one with a space in front, holds no tab or line boundary,
   * so its line in tmux's format reads back as that name; a valid name also
   * starts with a character `strip()` keeps.
   */
  lemma PlainName(name: string)
    requires ValidName(name) || (|name| > 1 && name[0] == ' ' && ValidName(name[1..]))
    ensures name != [] && '\t' !in name && NoLineBoundary(name)
    ensures ValidName(name) ==> !IsSpace(name[0])
    ensures Record(name + "\t1\t0") == [Session(name, 1, false)]
    ensures NoLineBoundary(name + "\t1\t0") && name + "\t1\t0" != []
  {
    if ValidName(name) {
      ValidNameIsPlain(name);
    } else {
      ValidNameIsPlain(name[1..]);
      assert name == [' '] + name[1..];
    }
    DetachedLine(name);
  }

  /** A line naming a session with one window and no client. */
  lemma DetachedLine(name: string)
    requires NoLineBoundary(name) && '\t' !in name
    ensures NoLineBoundary(name + "\t1\t0") && (name + "\t1\t0") != []
    ensures Record(name + "\t1\t0") == [Session(name, 1, false)]
  {
    assert name + "\t1\t0" == name + ['\t'] + "1" + ['\t'] + "0";
    FieldsOfLine(name, "1", "0");
    assert Decimal(1) == "1";
    WindowCountOfDecimal(1, "1");
  }

  /** Two lines give the record of the first, then that of the second. */
  lemma ParseLinesPair(first: string, second: string)
    ensures ParseLines([first, second]) == Record(first) + Record(second)
  {
    assert [first, second] == [first] + [second];
    ParseLinesAppend([first], [second]);
    ParseLinesSingle(first);
    ParseLinesSingle(second);
  }

  /** Fields after the third do not change the record. */
  lemma ParseLineIgnoresExtraFields(line: string, extra: string)
    requires multiset(line)['\t'] >= 2
    ensures ParseLine(line + ['\t'] + extra) == ParseLine(line)
  {
    SplitAppend(line, extra, '\t');
    SplitCount(line, '\t');
    SplitCount(line + ['\t'] + extra, '\t');
    var p := Split(line, '\t');
    assert (p + Split(extra, '\t'))[..3] == p[..3];
  }

  // ---------------------------------------------------------------------
  // The format tmux is asked for, and the round trip through the parser.

  /** `#{session_name}\t#{session_windows}\t#{session_attached}` for one session. */
  function FormatLine(s: Session): string {
    s.name + ['\t'] + Decimal(s.windows) + ['\t'] + Flag(s.attached)
  }

  /** One formatted line per session, in order. */
  function FormatLines(ss: seq<Session>): (r: seq<string>)
    ensures |r| == |ss| && forall k :: 0 <= k < |ss| ==> r[k] == FormatLine(ss[k])
  {
    if ss == [] then [] else FormatLines(ss[..|ss| - 1]) + [FormatLine(ss[|ss| - 1])]
  }

  /** The formatted lines of these sessions, LF between them. */
  function FormatListing(ss: seq<Session>): string {
    JoinLines(FormatLines(ss))
  }

  /** What `tmux ls -F ...` prints for these sessions: each line ended by LF. */
  function TmuxOutput(ss: seq<Session>): string {
    if ss == [] then [] else FormatListing(ss) + "\n"
  }

  function Flag(attached: bool): string {
    if attached then "1" else "0"
  }

  /** The three fields of a formatted line are the name, the window count and the flag. */
  lemma FormatLineFields(s: Session)
    requires '\t' !in s.name
    ensures Split(FormatLine(s), '\t') == [s.name, Decimal(s.windows), Flag(s.attached)]
  {
    var digits := Decimal(s.windows);
    DecimalRoundTrip(s.windows);
    assert '\t' !in digits by {
      assert forall i :: 0 <= i < |digits| ==> IsDigit(digits[i]);
    }
    var parts := [s.name, digits, Flag(s.attached)];
    assert parts[1..][1..] == [Flag(s.attached)];
    assert JoinWith(parts[1..], '\t') == digits + ['\t'] + Flag(s.attached);
    assert JoinWith(parts, '\t') == FormatLine(s);
    SplitJoinWith(parts, '\t');
  }

  /** Parsing a formatted line gives back the session. */
  lemma ParseFormatLine(s: Session)
    requires '\t' !in s.name
    ensures ParseLine(FormatLine(s)) == Some(s)
  {
    FormatLineFields(s);
    DecimalRoundTrip(s.windows);
    assert WindowCount(Decimal(s.windows)) == s.windows;
  }

  /** Lines that each give exactly one record parse to those records, in order. */
  lemma {:induction false} ParseLinesOfRecords(lines: seq<string>, ss: seq<Session>)
    requires |lines| == |ss|
    requires forall k :: 0 <= k < |lines| ==> Record(lines[k]) == [ss[k]]
    ensures ParseLines(lines) == ss
  {
    if lines != [] {
      assert forall k :: 0 <= k < |lines| - 1 ==> lines[1..][k] == lines[k + 1] && ss[1..][k] == ss[k + 1];
      ParseLinesOfRecords(lines[1..], ss[1..]);
      assert [ss[0]] + ss[1..] == ss;
    }
  }

  /** The lines tmux prints for sessions whose names hold no tab parse back to those sessions. */
  lemma ParseFormatLines(ss: seq<Session>)
    requires forall k :: 0 <= k < |ss| ==> '\t' !in ss[k].name
    ensures ParseLines(FormatLines(ss)) == ss
  {
    var lines := FormatLines(ss);
    forall k | 0 <= k < |lines|
      ensures Record(lines[k]) == [ss[k]]
    {
      ParseFormatLine(ss[k]);
    }
    ParseLinesOfRecords(lines, ss);
  }

  /** The first character of the joined text is that of the first line, the last that of the last line. */
  lemma {:induction false} JoinLinesEnds(ls: seq<string>)
    requires ls != [] && forall k :: 0 <= k < |ls| ==> ls[k] != []
    ensures JoinLines(ls) != []
    ensures JoinLines(ls)[0] == ls[0][0]
    ensures JoinLines(ls)[|JoinLines(ls)| - 1] == ls[|ls| - 1][|ls[|ls| - 1]| - 1]
  {
    if |ls| > 1 {
      JoinLinesEnds(ls[1..]);
    }
  }

  /** A formatted line of a validly named session holds no line boundary. */
  lemma FormatLinePlain(s: Session)
    requires ValidName(s.name)
    ensures '\t' !in s.name && NoLineBoundary(FormatLine(s))
    ensures FormatLine(s) != [] && !IsSpace(FormatLine(s)[0])
    ensures !IsSpace(FormatLine(s)[|FormatLine(s)| - 1])
  {
    ValidNameIsPlain(s.name);
    DecimalRoundTrip(s.windows);
    var line := FormatLine(s);
    assert line == s.name + (['\t'] + Decimal(s.windows) + ['\t'] + Flag(s.attached));
    assert forall i :: 0 <= i < |Decimal(s.windows)| ==> IsDigit(Decimal(s.windows)[i]);
    assert line[0] == s.name[0];
  }

  /**
   * Parsing the formatted lines of validly named sessions gives back exactly
   * those sessions, in order.
   */
  lemma ListingRoundTrip(ss: seq<Session>)
    requires forall k :: 0 <= k < |ss| ==> ValidName(ss[k].name)
    ensures ParseOutput(FormatListing(ss)) == ss
  {
    var lines := FormatLines(ss);
    forall k | 0 <= k < |ss|
      ensures '\t' !in ss[k].name && NoLineBoundary(lines[k]) && lines[k] != []
    {
      FormatLinePlain(ss[k]);
    }
    ListingUnpadded(ss);
    SplitLinesJoinLines(lines);
    ParseFormatLines(ss);
  }

  /**
   * The formatted listing of validly named sessions has no surrounding
   * whitespace, so `strip()` leaves it alone and removes only tmux's final LF.
   */
  lemma ListingUnpadded(ss: seq<Session>)
    requires forall k :: 0 <= k < |ss| ==> ValidName(ss[k].name)
    ensures Strip(FormatListing(ss)) == FormatListing(ss)
    ensures Strip(TmuxOutput(ss)) == FormatListing(ss)
  {
    var out := FormatListing(ss);
    if ss == [] {
      StripOfSpaceIsEmpty(out);
    } else {
      JoinLinesEnds(FormatLines(ss));
      FormatLinePlain(ss[0]);
      FormatLinePlain(ss[|ss| - 1]);
      StripKeepsUnpadded(out);
      StripDropsFinalNewline(out);
    }
  }

  /**
   * Listing what tmux prints for a set of validly named sessions, final LF
   * included, gives back exactly those sessions, in tmux's order.
   */
  lemma TmuxOutputRoundTrip(ss: seq<Session>)
    requires forall k :: 0 <= k < |ss| ==> ValidName(ss[k].name)
    ensures ParseOutput(TmuxOutput(ss)) == ss
  {
    ListingRoundTrip(ss);
    ListingUnpadded(ss);
  }
}
