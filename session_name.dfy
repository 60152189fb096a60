/**
 * The session-name pattern `^[A-Za-z0-9_.-]+$` (scripts/tmux-api.py, SESSION_RE),
 * which POST and DELETE apply before any name reaches tmux.
 */
module SessionName {
  import opened PyStr

  /** The character class `[A-Za-z0-9_.-]`. */
  predicate IsNameChar(c: char) {
    ('A' <= c <= 'Z') || ('a' <= c <= 'z') || ('0' <= c <= '9') || c == '_' || c == '.' || c == '-'
  }

  /**
   * The pattern read as a matcher: one name character, then either the end or
   * another match of the pattern (the `+`). It accepts exactly the non-empty
   * strings made only of name characters.
   */
  function MatchesSessionRe(s: string): (ok: bool)
    ensures ok <==> s != [] && forall i :: 0 <= i < |s| ==> IsNameChar(s[i])
  {
    |s| > 0 && IsNameChar(s[0]) && (|s| == 1 || MatchesSessionRe(s[1..]))
  }

  /** The test the handlers apply: `not name or not SESSION_RE.match(name)` rejects. */
  function ValidName(name: string): (ok: bool)
    ensures ok <==> MatchesSessionRe(name)
  {
    name != [] && MatchesSessionRe(name)
  }

  /**
   * An accepted name cannot smuggle anything into a tmux argument or a URL
   * path: no slash, no whitespace (so no tab), no line boundary, no colon.
   */
  lemma {:induction false} ValidNameIsPlain(name: string)
    requires ValidName(name)
    ensures '/' !in name && '\t' !in name && ':' !in name
    ensures forall i :: 0 <= i < |name| ==> !IsSpace(name[i]) && !IsLineBoundary(name[i])
  {
    assert forall i :: 0 <= i < |name| ==> IsNameChar(name[i]);
  }
}
