# tmux session API, modelled in Dafny

`scripts/tmux-api.py` is a small HTTP service over tmux. It lists, creates and
kills named tmux sessions. This project models the logic inside it:

- the session-name pattern `^[A-Za-z0-9_.-]+$`;
- the parser that turns the tab-separated output of
  `tmux ls -F "#{session_name}\t#{session_windows}\t#{session_attached}"` into
  session records, as the loop the source runs;
- `create_session`'s check-then-create against an abstract tmux server, a class
  whose state is the set of session names;
- the routing and status decisions of `do_GET`, `do_POST` and `do_DELETE`, as
  one pure function. Its inputs are the request and the outcomes of the tmux
  commands. It also returns the tmux commands the request issues.

Modules, one per concern, all in plain files at the top level:

| file | module | contents |
|---|---|---|
| `wrappers.dfy` | `Wrappers` | `Option` |
| `pystr.dfy` | `PyStr` | the Python string operations the source uses, over ASCII: `strip`, `splitlines`, `split`, `split(sep, 1)`, `startswith`, `isdigit`, `int` |
| `session_name.dfy` | `SessionName` | `SESSION_RE` and what an accepted name cannot contain |
| `listing.dfy` | `Listing` | the `Session` record, the parser as functions, the `list_sessions` loop as a method, and the round trip from tmux's format back to records |
| `tmux_server.dfy` | `TmuxServer` | class `Server` with `has_session`, `create_session` and `kill_session` |
| `handler.dfy` | `Handler` | requests, replies, status codes, issued commands, and the three `do_*` handlers |

The main results:

- The parser and its inverse (`Listing.TmuxOutputRoundTrip`): take any sessions
  whose names pass the pattern, print them the way the `tmux ls -F` template
  asks, with the attached flag printed as 0 or 1 and each line ended by LF,
  and `list_sessions` gives back exactly those sessions, in order.
- The parser is line by line (`Listing.ParseLinesAppend`,
  `Listing.ParseLinesOneEach`). A line yields a record exactly when it holds
  at least two tabs (`Listing.ParseLineShape`). Extra fields are ignored
  (`Listing.ParseLineIgnoresExtraFields`).
- `Listing.ListSessions`, the imperative loop, computes the same records as the
  parsing functions.
- Every name the handler hands to tmux has passed the session-name pattern
  (`Handler.Handle`). Such a name contains no slash, whitespace, tab or line
  break (`SessionName.ValidNameIsPlain`).
- Create is idempotent against the abstract server (`TmuxServer.Server.CreateSession`,
  `TmuxServer.CreateTwice`).

Two behaviours of the code worth knowing, which the model keeps as written:

- A request with a method other than GET, POST or DELETE (PUT, say) is
  answered by Python's `http.server` with 501, because `Handler` defines no
  `do_PUT`. Such requests are outside the model.
- `attached` is true exactly when tmux prints `"1"`
  (scripts/tmux-api.py:31). tmux's `#{session_attached}` is the number of
  attached clients, so a session with two clients is reported as not attached
  (`Listing.TwoClientsReadAsDetached`).
- `out.strip()` (scripts/tmux-api.py:23) strips the whole output once, not each
  line, so leading whitespace is dropped from the first session's name only.
  This matters only for sessions created outside this API with such names
  (`Listing.StripOnlyTrimsFirstName`).

## Model

| member | source | states |
|---|---|---|
| SessionName.MatchesSessionRe | scripts/tmux-api.py:10 | the pattern accepts exactly the non-empty strings whose every character is an ASCII letter, digit, `_`, `.` or `-` |
| SessionName.ValidNameIsPlain | scripts/tmux-api.py:85-86 | a name that passes the check contains no `/`, tab, `:`, whitespace or line boundary |
| PyStr.TrimLeft | scripts/tmux-api.py:23 | the result is a suffix of the input, what was cut is all whitespace, and the result does not start with whitespace |
| PyStr.TrimRight | scripts/tmux-api.py:23 | the result is a prefix of the input, what was cut is all whitespace, and the result does not end with whitespace |
| PyStr.StripShape | scripts/tmux-api.py:84 | `strip()` yields the contiguous middle of the text, framed by whitespace only |
| PyStr.StripKeepsUnpadded | scripts/tmux-api.py:23 | text that neither starts nor ends with whitespace is unchanged by `strip()` |
| PyStr.StripOfSpaceIsEmpty | scripts/tmux-api.py:23 | whitespace-only text strips to the empty string |
| PyStr.SplitLines | scripts/tmux-api.py:23 | `splitlines()` gives no lines for empty text, and no line it gives holds a line boundary |
| PyStr.SplitLinesJoinLines | scripts/tmux-api.py:23 | `splitlines()` recovers lines joined with LF, when none holds a boundary and the last is non-empty |
| PyStr.SplitLinesTerminated | scripts/tmux-api.py:23 | a boundary-free line ended by any terminator `splitlines()` knows (LF, CR, CR LF, VT, FF, 0x1C-0x1E) is the first line returned, the rest split on; a lone CR not followed by LF ends a line of its own |
| PyStr.SplitLinesCrLf | scripts/tmux-api.py:23 | CR LF ends one line, not two |
| PyStr.Split | scripts/tmux-api.py:24 | `split("\t")` gives at least one field, and no field contains the separator |
| PyStr.JoinWithSplit | scripts/tmux-api.py:24 | joining the fields with the separator gives back the text that was split |
| PyStr.SplitJoinWith | scripts/tmux-api.py:24 | splitting fields joined with the separator gives the fields back, when none holds it |
| PyStr.SplitAppend | scripts/tmux-api.py:24 | a separator between two texts splits exactly there |
| PyStr.SplitCount | scripts/tmux-api.py:24-25 | there is one field more than there are separators |
| PyStr.SplitOnce | scripts/tmux-api.py:97 | `split(sep, 1)` is the whole text when `sep` does not occur, else the text before the first occurrence and the text after it |
| PyStr.SplitOnceAtStart | scripts/tmux-api.py:96-97 | for a path starting with `/sessions/`, the name taken is everything after that prefix |
| PyStr.StartsWith | scripts/tmux-api.py:96 | `path.startswith("/sessions/")`; what the handler then takes as the name is stated in `SplitOnceAtStart` and `Handler.DeleteByPathSuffix` |
| PyStr.DecimalRoundTrip | scripts/tmux-api.py:30 | a rendered window count passes `isdigit()` and `int()` reads it back unchanged |
| PyStr.IsDigits | scripts/tmux-api.py:30 | `str.isdigit()` on ASCII: non-empty and all digits; every rendered count passes it (`DecimalRoundTrip`) |
| PyStr.DecimalValue | scripts/tmux-api.py:30 | `int()` of a digit string; it reads every rendered count back as that count (`DecimalRoundTrip`) |
| Listing.ParseLineShape | scripts/tmux-api.py:24-31 | a line yields a record exactly when it holds at least two tabs, and the record's name is the text before the first tab |
| Listing.ParseLineIgnoresExtraFields | scripts/tmux-api.py:24-27 | fields after the third do not change the record |
| Listing.ListSessions | scripts/tmux-api.py:17-33 | the loop appends exactly the records the parsing functions define; a failing `tmux ls` gives the empty list |
| Listing.ParseLinesSnoc | scripts/tmux-api.py:24-32 | one more line of output adds its record, if it has one, after those already listed: the loop's step |
| Listing.ParseLines | scripts/tmux-api.py:23-32 | the records of the lines in line order, one for each line with three fields (`ParseLinesAppend`, `ParseLinesOneEach`, `ParseLinesSnoc`) |
| Listing.ParseLinesAppend | scripts/tmux-api.py:23-32 | the records of two blocks of lines are those of the first followed by those of the second |
| Listing.ParseLinesOneEach | scripts/tmux-api.py:25-32 | a line adds its one record in its place if it has three fields, and nothing otherwise |
| Listing.BlankOutputListsNothing | scripts/tmux-api.py:23 | empty or whitespace-only output lists no sessions |
| Listing.ParseFormatLine | scripts/tmux-api.py:27-31 | a line in the `-F` format parses back to its session: name verbatim, decimal window count, attached exactly when the flag is `1` |
| Listing.ParseFormatLines | scripts/tmux-api.py:22-33 | the formatted lines of tab-free sessions parse back to those sessions in order |
| Listing.ListingRoundTrip | scripts/tmux-api.py:22-33 | the formatted lines of validly named sessions, LF between them, parse back to exactly those sessions |
| Listing.TmuxOutputRoundTrip | scripts/tmux-api.py:19-33 | the whole output tmux prints for validly named sessions, final LF included, lists exactly those sessions in order |
| PyStr.StripDropsFinalNewline | scripts/tmux-api.py:23 | the LF after the last line is removed by `strip()` and nothing else is |
| Listing.ParseLine | scripts/tmux-api.py:24-31 | one line's record, when there is one, has a name free of tabs (its fields are pinned by `FieldsOfLine`, `ParseLineShape` and `ParseLineIgnoresExtraFields`) |
| Listing.FieldsOfLine | scripts/tmux-api.py:25-31 | any three-field line gives the first field as name, `int` of an all-digit second field (else 0) as window count, and attached exactly when the third field is `"1"` |
| Listing.TwoClientsReadAsDetached | scripts/tmux-api.py:31 | a session tmux lists with two attached clients is reported as not attached |
| Listing.StripOnlyTrimsFirstName | scripts/tmux-api.py:23-31 | the output is stripped as a whole: of two sessions printed with a leading space, the first loses it and the second keeps it |
| Listing.WindowCountOfDecimal | scripts/tmux-api.py:30 | `int(windows) if windows.isdigit() else 0` reads a printed count back as that number, and any field that is not all digits as 0 |
| Listing.WindowCount | scripts/tmux-api.py:30 | `int(windows) if windows.isdigit() else 0`: a printed count reads as itself and a non-digit field as 0 (`WindowCountOfDecimal`, `FieldsOfLine`) |
| Listing.ParseOutput | scripts/tmux-api.py:23-33 | at most one session per line of the stripped output |
| Listing.ParseLinesAtMostOneEach | scripts/tmux-api.py:24-33 | the loop appends at most one session per line |
| Listing.ParsedNamesHaveNoTab | scripts/tmux-api.py:25-29 | no listed session name holds a tab, whatever tmux prints |
| Listing.ListingUnpadded | scripts/tmux-api.py:23 | for validly named sessions, `strip()` leaves the formatted lines alone and removes only tmux's final LF |
| Listing.SessionsOf | scripts/tmux-api.py:17-33 | `list_sessions()`: no sessions when `tmux ls` exits non-zero, otherwise at most one per line of its stripped output |
| PyStr.Strip | scripts/tmux-api.py:84 | `str.strip()` never lengthens the string and leaves it neither starting nor ending with whitespace (the full shape is in `StripShape`) |
| SessionName.ValidName | scripts/tmux-api.py:98 | the handlers' test `not name or not SESSION_RE.match(name)` accepts exactly what the pattern accepts: the `not name` half never decides |
| TmuxServer.CreateDecision | scripts/tmux-api.py:44-48 | an existing session is reported as not created; `created: true` exactly for an absent name whose `new-session` succeeded; a failure exactly for an absent name whose `new-session` failed |
| Handler.StatusFor | scripts/tmux-api.py:74-105 | every reply is 200, 400, 404 or 500, and it is 200 exactly when the body is not an error |
| Handler.Routed | scripts/tmux-api.py:74-105 | every path the handlers serve lies under `/sessions` |
| TmuxServer.Server.HasSession | scripts/tmux-api.py:36-41 | `has-session` succeeds exactly when the name is a session of the server |
| TmuxServer.Server.NewSession | scripts/tmux-api.py:47 | a successful `new-session` adds the name; a failing one changes nothing |
| TmuxServer.Server.CreateSession | scripts/tmux-api.py:44-48 | an existing name gives `created = false` and no change; a new name is added with `created = true`; a failing `new-session` is an error and no change |
| TmuxServer.Server.KillSession | scripts/tmux-api.py:51-52 | `kill-session` succeeds exactly when the session exists, and removes it |
| TmuxServer.CreateTwice | scripts/tmux-api.py:44-48 | creating a new name twice yields created, then not created, and the server holds the name |
| Handler.DoGet | scripts/tmux-api.py:74-78 | GET answers with the status that goes with its reply, and any path other than `/sessions` is 404 `not_found` without tmux |
| Handler.DoPost | scripts/tmux-api.py:80-92 | POST answers with the status that goes with its reply, only validated names reach tmux, and any path other than `/sessions` is 404 |
| Handler.DoDelete | scripts/tmux-api.py:94-105 | DELETE answers with the status that goes with its reply, only validated names reach tmux, and a path outside `/sessions/` is 404 |
| Handler.Handle | scripts/tmux-api.py:74-105 | for every request and tmux behaviour: the status matches the reply, every name handed to tmux passes the pattern, and every unrouted request is 404 `not_found` without tmux |
| Handler.GetSessionsAlwaysAnswers | scripts/tmux-api.py:76-77 | GET `/sessions` is 200 with the parsed listing whatever `tmux ls` prints (ASCII window counts, as tmux renders them) or its exit status, and the empty list when it exits non-zero |
| Handler.PostRejectsInvalidName | scripts/tmux-api.py:84-86 | a missing, empty or invalid stripped name is 400 `invalid_name` and no tmux command runs |
| Handler.PostCreates | scripts/tmux-api.py:87-91 | a valid name asks `has-session` first; existing gives 200 `created = false` without `new-session`; otherwise `new-session` runs, 200 `created = true` on success, 500 `create_failed` on failure |
| Handler.DeleteByPathSuffix | scripts/tmux-api.py:96-104 | the name is everything after `/sessions/`; every name the pattern refuses (empty, with a further `/`, ...) is 400 without tmux; a valid name is killed, 200 on success, 404 `not_found` on failure |
| Handler.RefusedNamesNeverReachTmux | scripts/tmux-api.py:98-99 | a request refused with 400 gets the same answer whatever tmux would do |

## Left out

- Running tmux (`run`, `subprocess.check_output` and `check_call`). These are calls into another program. In `Listing` the output of `tmux ls` is an input, with None for a non-zero exit. In `Handler` the success of each command is an input. In `TmuxServer` the server is the set of session names.
- Failures other than a non-zero exit status. The source catches only `subprocess.CalledProcessError` (scripts/tmux-api.py:20, 40, 90, 103). When the tmux binary cannot be started at all (`FileNotFoundError` or another `OSError`), the exception escapes `do_GET`, `do_POST` or `do_DELETE` and the client gets no JSON reply. The model treats every tmux failure as a non-zero exit, so it does not capture this case.
- The HTTP layer: `BaseHTTPRequestHandler`, `HTTPServer`, the header writes in `_json`, the silent `log_message`, and `main` with its flags, environment variables and `serve_forever`. This is I/O and configuration. Requests whose method is not GET, POST or DELETE are answered by the library with 501 and are not modelled.
- `json.dumps`, `json.loads`, `_read_json` and `urlparse` are library calls. The request carries the path already taken out of the URL. It also carries the body's `"name"` already converted with `str()`, or None when the body is missing, malformed or has no name. Two crash paths are not modelled: a `Content-Length` that is not a number (line 65), and a JSON body that is not an object, where `data.get` at line 84 raises. `Content-Length` matching the body length holds by line 60 over an opaque encoding.
- PyStr.Strip, PyStr.StripShape: whitespace is the ASCII part of what Python's `str.strip()` removes (tab, LF, VT, FF, CR, 0x1C-0x1F, space). Non-ASCII whitespace such as U+00A0 is not modelled. So a POST name padded with U+00A0 is stripped and accepted by the source (scripts/tmux-api.py:84), while the model answers 400.
- PyStr.SplitLines: line boundaries are the ASCII ones of `str.splitlines()` (LF, CR, CR LF, VT, FF, 0x1C-0x1E). U+0085, U+2028 and U+2029 are not modelled.
- PyStr.DecimalRoundTrip: `isdigit()` and `int()` are modelled on ASCII digits only. Python's `isdigit()` also accepts superscripts such as `"²"`, on which `int()` raises `ValueError` inside `list_sessions` (scripts/tmux-api.py:30); the error escapes `do_GET` and no reply is sent, where the model reads 0 and answers 200 (so Handler.GetSessionsAlwaysAnswers holds only for the ASCII counts tmux prints). `int()` also reads other Unicode decimal digits (`"٣"` gives 3), where the model reads 0.
- SessionName.MatchesSessionRe: Python's `$` also matches before a final newline. The model drops that case. POST strips the name first. A DELETE path comes from a request line, which cannot carry a raw newline.
- TmuxServer.Server.HasSession: `has-session` is exact membership. tmux's own target lookup, where `-t` may also match by prefix or pattern, is not modelled. Neither are default window counts or attach state.
- TmuxServer.Server.KillSession: `kill-session -t` uses the same target lookup, so `DELETE /sessions/al` can kill a session named `alpha`. The model removes only an exact match.
