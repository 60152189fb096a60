/**
 * `has_session`, `create_session` and `kill_session` (scripts/tmux-api.py)
 * against an abstract tmux server: the server is the set of its session
 * names, `has-session` is membership, `new-session` adds a name and
 * `kill-session` removes one. Whether `new-session` fails for reasons of
 * its own (no daemon, say) is an input.
 */
module TmuxServer {

  /** What `create_session` gives its caller: a flag, or the `CalledProcessError` of `new-session`. */
  datatype CreateResult = Created(created: bool) | NewSessionFailed

  /**
   * The check-then-create decision: an existing session is reported as not
   * created; otherwise the outcome of `new-session` decides.
   */
  function CreateDecision(present: bool, newSessionOk: bool): (r: CreateResult)
    ensures r == Created(true) <==> !present && newSessionOk
    ensures r.NewSessionFailed? <==> !present && !newSessionOk
    ensures present ==> r == Created(false)
  {
    if present then Created(false)
    else if newSessionOk then Created(true)
    else NewSessionFailed
  }

  class Server {
    var sessions: set<string>

    constructor (initial: set<string>)
      ensures sessions == initial
    {
      sessions := initial;
    }

    /** `tmux has-session -t name`: a zero exit status exactly when the session exists. */
    method HasSession(name: string) returns (present: bool)
      ensures present <==> name in sessions
    {
      present := name in sessions;
    }

    /** `tmux new-session -d -s name`; `ok` is whether the command exits with status zero. */
    method NewSession(name: string, ok: bool) returns (started: bool)
      modifies this
      ensures started == ok
      ensures sessions == if ok then old(sessions) + {name} else old(sessions)
    {
      started := ok;
      if ok {
        sessions := sessions + {name};
      }
    }

    /**
     * `create_session`: an existing name is left alone and reported as not
     * created, without running `new-session`; a new name is added and
     * reported as created, unless `new-session` fails.
     */
    method CreateSession(name: string, newSessionOk: bool) returns (r: CreateResult)
      modifies this
      ensures r == CreateDecision(name in old(sessions), newSessionOk)
      ensures name in old(sessions) ==> r == Created(false) && sessions == old(sessions)
      ensures name !in old(sessions) && newSessionOk ==> r == Created(true) && sessions == old(sessions) + {name}
      ensures name !in old(sessions) && !newSessionOk ==> r == NewSessionFailed && sessions == old(sessions)
    {
      var present := HasSession(name);
      if present {
        return Created(false);
      }
      var started := NewSession(name, newSessionOk);
      if !started {
        return NewSessionFailed;
      }
      return Created(true);
    }

    /** `kill_session`: succeeds exactly when the session exists, and removes it. */
    method KillSession(name: string) returns (ok: bool)
      modifies this
      ensures ok <==> name in old(sessions)
      ensures sessions == old(sessions) - {name}
    {
      ok := name in sessions;
      sessions := sessions - {name};
    }
  }

  /**
   * Creating the same name twice: the first call creates it, the second finds
   * it and reports `created = false` whatever `new-session` would have done,
   * and the server holds the name once.
   */
  method CreateTwice(server: Server, name: string, secondNewSessionOk: bool)
    returns (first: CreateResult, second: CreateResult)
    requires name !in server.sessions
    modifies server
    ensures first == Created(true) && second == Created(false)
    ensures server.sessions == old(server.sessions) + {name}
  {
    first := server.CreateSession(name, true);
    second := server.CreateSession(name, secondNewSessionOk);
  }
}
