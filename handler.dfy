/**
 * `Handler.do_GET`, `do_POST` and `do_DELETE` (scripts/tmux-api.py) as one
 * pure decision: from the method, the path, the name found in the JSON body
 * and the outcomes of the tmux commands, the status code and reply, together
 * with the tmux commands the request issues, in order.
 */
module Handler {
  import opened Wrappers
  import opened PyStr
  import opened SessionName
  import opened Listing
  import opened TmuxServer

  datatype Verb = Get | Post | Delete

  /**
   * A request: `path` is the path part of the request target; `bodyName` is
   * `str(data.get("name"))` of the JSON body, None when the body is missing,
   * malformed or has no "name".
   */
  datatype Request = Request(verb: Verb, path: string, bodyName: Option<string>)

  datatype ErrorCode = InvalidName | NotFound | CreateFailed {
    /** The exact `"error"` string on the wire. */
    function Text(): string {
      match this
      case InvalidName => "invalid_name"
      case NotFound => "not_found"
      case CreateFailed => "create_failed"
    }
  }

  /** The JSON reply bodies. */
  datatype Body =
    | SessionsBody(sessions: seq<Session>)      // {"sessions": [...]}
    | ErrorBody(error: ErrorCode)               // {"error": "..."}
    | CreatedBody(name: string, created: bool)  // {"ok": true, "name": ..., "created": ...}
    | KilledBody(name: string)                  // {"ok": true, "name": ...}

  datatype Response = Response(status: int, body: Body)

  /** The tmux commands a request may run. */
  datatype Command =
    | LsCmd
    | HasSessionCmd(target: string)
    | NewSessionCmd(target: string)
    | KillSessionCmd(target: string)

  /**
   * What those commands do when run: the output of `tmux ls` (None for a
   * non-zero exit), and whether `has-session`, `new-session` and
   * `kill-session` exit with status zero.
   */
  datatype Tmux = Tmux(listing: Option<string>, hasSession: bool, newSessionOk: bool, killOk: bool)

  /** The response to a request and the tmux commands issued while computing it. */
  datatype Exchange = Exchange(response: Response, issued: seq<Command>)

  const SessionsPath: string := "/sessions"
  const SessionPrefix: string := "/sessions/"

  function Fail(status: int, error: ErrorCode): Exchange {
    Exchange(Response(status, ErrorBody(error)), [])
  }

  /** The status code each kind of reply goes out with. */
  function StatusFor(body: Body): (status: int)
    ensures status in {200, 400, 404, 500}
    ensures status == 200 <==> !body.ErrorBody?
  {
    match body
    case ErrorBody(InvalidName) => 400
    case ErrorBody(NotFound) => 404
    case ErrorBody(CreateFailed) => 500
    case _ => 200
  }

  /** `do_GET`: only /sessions is served. */
  function DoGet(path: string, tmux: Tmux): (x: Exchange)
    ensures x.response.status == StatusFor(x.response.body)
    ensures forall c :: c in x.issued && !c.LsCmd? ==> ValidName(c.target)
    ensures path != SessionsPath ==> x == Fail(404, NotFound)
  {
    if path == SessionsPath then
      Exchange(Response(200, SessionsBody(SessionsOf(tmux.listing))), [LsCmd])
    else Fail(404, NotFound)
  }

  /** `do_POST`: only /sessions is served; the stripped name is checked before tmux is asked. */
  function DoPost(path: string, bodyName: Option<string>, tmux: Tmux): (x: Exchange)
    ensures x.response.status == StatusFor(x.response.body)
    ensures forall c :: c in x.issued && !c.LsCmd? ==> ValidName(c.target)
    ensures path != SessionsPath ==> x == Fail(404, NotFound)
  {
    if path == SessionsPath then
      var name := Strip(bodyName.GetOr(""));
      if !ValidName(name) then Fail(400, InvalidName)
      else
        var issued := [HasSessionCmd(name)] + (if tmux.hasSession then [] else [NewSessionCmd(name)]);
        match CreateDecision(tmux.hasSession, tmux.newSessionOk)
        case Created(created) => Exchange(Response(200, CreatedBody(name, created)), issued)
        case NewSessionFailed => Exchange(Response(500, ErrorBody(CreateFailed)), issued)
    else Fail(404, NotFound)
  }

  /** `do_DELETE`: paths under /sessions/ name the session to kill. */
  function DoDelete(path: string, tmux: Tmux): (x: Exchange)
    ensures x.response.status == StatusFor(x.response.body)
    ensures forall c :: c in x.issued && !c.LsCmd? ==> ValidName(c.target)
    ensures !StartsWith(path, SessionPrefix) ==> x == Fail(404, NotFound)
  {
    if StartsWith(path, SessionPrefix) then
      SplitOnceAtStart(path, SessionPrefix);
      var name := SplitOnce(path, SessionPrefix)[1];
      if !ValidName(name) then Fail(400, InvalidName)
      else if tmux.killOk then Exchange(Response(200, KilledBody(name)), [KillSessionCmd(name)])
      else Exchange(Response(404, ErrorBody(NotFound)), [KillSessionCmd(name)])
    else Fail(404, NotFound)
  }

  /** The request is one of the three routes the handler serves. */
  function Routed(req: Request): (ok: bool)
    ensures ok ==> StartsWith(req.path, SessionsPath)
  {
    match req.verb
    case Get => req.path == SessionsPath
    case Post => req.path == SessionsPath
    case Delete => StartsWith(req.path, SessionPrefix)
  }

  /**
   * Dispatch on the method. Whatever the request and whatever tmux does: the
   * status is the one that goes with the reply, every name handed to tmux has
   * passed the session-name pattern, and an unrouted request is answered 404
   * `not_found` without running tmux.
   */
  function Handle(req: Request, tmux: Tmux): (x: Exchange)
    ensures x.response.status == StatusFor(x.response.body)
    ensures forall c :: c in x.issued && !c.LsCmd? ==> ValidName(c.target)
    ensures !Routed(req) ==> x == Exchange(Response(404, ErrorBody(NotFound)), [])
  {
    match req.verb
    case Get => DoGet(req.path, tmux)
    case Post => DoPost(req.path, req.bodyName, tmux)
    case Delete => DoDelete(req.path, tmux)
  }

  /**
   * GET /sessions answers 200 with the parsed listing whatever `tmux ls`
   * prints (window counts read as ASCII digits) or its exit status; the
   * listing is empty when it exits non-zero (no server running).
   */
  lemma GetSessionsAlwaysAnswers(bodyName: Option<string>, tmux: Tmux)
    ensures Handle(Request(Get, SessionsPath, bodyName), tmux).response
      == Response(200, SessionsBody(SessionsOf(tmux.listing)))
    ensures tmux.listing.None? ==>
      Handle(Request(Get, SessionsPath, bodyName), tmux).response == Response(200, SessionsBody([]))
  {
  }

  /**
   * POST /sessions checks the stripped name before anything else: a missing,
   * empty or invalid name is 400 `invalid_name` and no tmux command runs.
   */
  lemma PostRejectsInvalidName(bodyName: Option<string>, tmux: Tmux)
    requires !ValidName(Strip(bodyName.GetOr("")))
    ensures Handle(Request(Post, SessionsPath, bodyName), tmux)
      == Exchange(Response(400, ErrorBody(InvalidName)), [])
  {
  }

  /**
   * POST /sessions with a valid name asks `has-session` first; an existing
   * session is 200 with `created = false` and no `new-session`; otherwise
   * `new-session` runs and its failure is 500 `create_failed`.
   */
  lemma PostCreates(bodyName: Option<string>, tmux: Tmux)
    requires ValidName(Strip(bodyName.GetOr("")))
    ensures var name := Strip(bodyName.GetOr(""));
      var x := Handle(Request(Post, SessionsPath, bodyName), tmux);
      && (tmux.hasSession ==>
            x == Exchange(Response(200, CreatedBody(name, false)), [HasSessionCmd(name)]))
      && (!tmux.hasSession && tmux.newSessionOk ==>
            x == Exchange(Response(200, CreatedBody(name, true)), [HasSessionCmd(name), NewSessionCmd(name)]))
      && (!tmux.hasSession && !tmux.newSessionOk ==>
            x == Exchange(Response(500, ErrorBody(CreateFailed)), [HasSessionCmd(name), NewSessionCmd(name)]))
  {
  }

  /**
   * DELETE /sessions/<name>: the name is everything after the prefix, so any
   * rest the pattern refuses (empty, a further `/`, a space, ...) is 400
   * `invalid_name` without tmux; a valid name is killed, 200 on success and
   * 404 `not_found` on failure.
   */
  lemma DeleteByPathSuffix(path: string, bodyName: Option<string>, tmux: Tmux)
    requires StartsWith(path, SessionPrefix)
    ensures var name := path[|SessionPrefix|..];
      var x := Handle(Request(Delete, path, bodyName), tmux);
      && (!ValidName(name) ==> x == Exchange(Response(400, ErrorBody(InvalidName)), []))
      && (name == "" || '/' in name ==> x == Exchange(Response(400, ErrorBody(InvalidName)), []))
      && (ValidName(name) && tmux.killOk ==>
            x == Exchange(Response(200, KilledBody(name)), [KillSessionCmd(name)]))
      && (ValidName(name) && !tmux.killOk ==>
            x == Exchange(Response(404, ErrorBody(NotFound)), [KillSessionCmd(name)]))
  {
  }

  /** The reply never depends on the tmux outcomes when the name is refused. */
  lemma RefusedNamesNeverReachTmux(req: Request, t1: Tmux, t2: Tmux)
    requires Handle(req, t1).response.status == 400
    ensures Handle(req, t1) == Handle(req, t2)
  {
  }
}
