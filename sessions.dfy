/** The session store of the server: `new_session`, the state updates of the
    `/api/analyze` handler and the per-session queries (`search_logs`,
    `list_components`, `parse_session_results`), with the analyzer run
    (`run_analyzer`) reduced to how its outcome is reported. */
module Sessions {
  import opened Text
  import Control
  import Extract
  import LogSearch
  import Components

  /** The `state` of a session record. */
  datatype State = Loaded | Analyzing | Done | Error

  /** One record of the `sessions` dictionary. */
  datatype Session = Session(
    id: string, inputPath: string, workDir: string, reportsDir: string,
    state: State, deviceId: string, analysisMode: string,
    stdout: string, stderr: string)

  /** How the analyzer subprocess ended: it exited with a code and its decoded
      output, it ran past the timeout, or starting it raised with a message. */
  datatype RunOutcome = Exited(code: int, out: string, err: string) | TimedOut | Failed(message: string)

  /** What `run_analyzer` returns: exit code, stdout, stderr. */
  datatype RunResult = RunResult(code: int, out: string, err: string)

  /** The reply of `/api/analyze`. */
  datatype AnalyzeReply =
    | SessionNotFound
    | Analyzed(ok: bool, exitCode: int, output: string, errors: string, reports: seq<string>, sessionId: string)

  /** The analyzer is given this many seconds by `/api/analyze`. */
  const AnalyzeTimeout: nat := 180

  /** `run_analyzer`: a timeout reports code 124 and a message naming the
      limit, any other failure code 1 and the exception's text; neither has
      standard output. */
  function RunAnalyzer(outcome: RunOutcome, timeout: nat): (r: RunResult)
    ensures outcome.Exited? ==> r == RunResult(outcome.code, outcome.out, outcome.err)
    ensures !outcome.Exited? ==> r.out == "" && r.code != 0
    ensures outcome.TimedOut? ==> r.code == 124 && r.err == "Timeout after " + Decimal(timeout) + "s"
    ensures outcome.Failed? ==> r.code == 1 && r.err == outcome.message
  {
    match outcome
    case Exited(code, out, err) => RunResult(code, out, err)
    case TimedOut => RunResult(124, "", "Timeout after " + Decimal(timeout) + "s")
    case Failed(message) => RunResult(1, "", message)
  }

  /** Text without ANSI sequences or other control characters. */
  predicate Clean(t: string) {
    forall k :: 0 <= k < |t| ==> !Control.IsControl(t[k])
  }

  /** The record `new_session` creates for `sid`. */
  function Fresh(sessionDir: string, sid: string, inputPath: string): Session {
    var work := JoinPath(sessionDir, sid);
    Session(sid, inputPath, work, JoinPath(work, "reports"), Loaded, "", "", "", "")
  }

  /** What every record of the store satisfies between requests: it is filed
      under its own id with its directories below the session directory; no
      request leaves it `analyzing`; a `loaded` one is still as created; its
      captured output is clean and its device id has no whitespace. */
  predicate Consistent(sessionDir: string, sid: string, s: Session) {
    && s.id == sid
    && s.workDir == JoinPath(sessionDir, sid)
    && s.reportsDir == JoinPath(s.workDir, "reports")
    && s.state != Analyzing
    && (s.state == Loaded ==> s == Fresh(sessionDir, sid, s.inputPath))
    && Clean(s.stdout) && Clean(s.stderr)
    && forall k :: 0 <= k < |s.deviceId| ==> !IsSpace(s.deviceId[k])
  }
  /** A record as `new_session` creates it already meets the store's
      invariant, under the id it is filed under. */
  lemma FreshConsistent(sessionDir: string, sid: string, inputPath: string)
    ensures Consistent(sessionDir, sid, Fresh(sessionDir, sid, inputPath))
  {
  }


  /** Every record of `m` is consistent. */
  predicate ValidStore(sessionDir: string, m: map<string, Session>) {
    forall sid :: sid in m ==> Consistent(sessionDir, sid, m[sid])
  }

  /** Filing a consistent record keeps the store consistent. */
  lemma StoreUpdate(sessionDir: string, m: map<string, Session>, sid: string, s: Session)
    requires ValidStore(sessionDir, m) && Consistent(sessionDir, sid, s)
    ensures ValidStore(sessionDir, m[sid := s])
  {
  }

  /** The state after an analysis: `done` when the analyzer exited with 0 or
      left at least one report, `error` otherwise. */
  function FinalState(code: int, reports: seq<string>): (st: State)
    ensures st == Done <==> code == 0 || |reports| > 0
    ensures st == Error <==> code != 0 && |reports| == 0
  {
    if code == 0 || |reports| > 0 then Done else Error
  }

  /** The command line `/api/analyze` passes to the analyzer script. */
  function AnalyzerArgs(mode: string, reportsDir: string, web: bool, mail: bool, tickets: bool, inputPath: string): seq<string> {
    ["-q", "--no-color", "--mode", mode, "-o", reportsDir]
      + (if web then ["--web"] else []) + (if mail then ["--mail"] else [])
      + (if tickets then ["--tickets"] else []) + [inputPath]
  }

  /** The fixed options come first and the input last; between them, each
      requested extra appears once, in the order web, mail, tickets. */
  lemma AnalyzerArgsShape(mode: string, reportsDir: string, web: bool, mail: bool, tickets: bool, inputPath: string)
    ensures var args := AnalyzerArgs(mode, reportsDir, web, mail, tickets, inputPath);
      && args[..6] == ["-q", "--no-color", "--mode", mode, "-o", reportsDir]
      && args[|args| - 1] == inputPath
      && args[6..|args| - 1] == (if web then ["--web"] else []) + (if mail then ["--mail"] else [])
        + (if tickets then ["--tickets"] else [])
      && ("--web" in args[6..|args| - 1] <==> web)
      && ("--mail" in args[6..|args| - 1] <==> mail)
      && ("--tickets" in args[6..|args| - 1] <==> tickets)
  {
    var args := AnalyzerArgs(mode, reportsDir, web, mail, tickets, inputPath);
    var head := ["-q", "--no-color", "--mode", mode, "-o", reportsDir];
    var extras := (if web then ["--web"] else []) + (if mail then ["--mail"] else [])
      + (if tickets then ["--tickets"] else []);
    assert args == head + extras + [inputPath];
    assert args[..6] == head;
    assert args[6..|args| - 1] == extras;
  }

  /** A record after `/api/analyze` with the given run and report listing. */
  function AfterAnalysis(s: Session, mode: string, run: RunResult, reports: seq<string>): Session {
    var out := Control.StripAnsi(run.out);
    s.(state := FinalState(run.code, reports), analysisMode := mode,
       stdout := out, stderr := Control.StripAnsi(run.err),
       deviceId := match Extract.DeviceId(out) case Some(d) => d case None => s.deviceId)
  }

  /** An analysis keeps a record consistent. */
  lemma AfterAnalysisConsistent(sessionDir: string, sid: string, s: Session, mode: string, run: RunResult, reports: seq<string>)
    requires Consistent(sessionDir, sid, s)
    ensures Consistent(sessionDir, sid, AfterAnalysis(s, mode, run, reports))
    ensures AfterAnalysis(s, mode, run, reports).state in {Done, Error}
  {
  }

  /** A run that timed out without leaving reports puts the session in
      `error`, with no output, the timeout message as its errors and the
      device id it had before. */
  lemma TimedOutAnalysis(s: Session, mode: string, timeout: nat)
    ensures var t := AfterAnalysis(s, mode, RunAnalyzer(TimedOut, timeout), []);
      && t.state == Error && t.stdout == "" && t.deviceId == s.deviceId
      && t.stderr == "Timeout after " + Decimal(timeout) + "s"
  {
    assert Control.StripAnsi("") == "";
    assert Extract.DeviceId("").None?;
    var digits := Decimal(timeout);
    var msg := "Timeout after " + digits + "s";
    forall k | 0 <= k < |msg| ensures !Control.IsControl(msg[k]) {
      if k < 14 {
        assert msg[k] == "Timeout after "[k];
      } else if k < 14 + |digits| {
        assert msg[k] == digits[k - 14];
      } else {
        assert msg[k] == 's';
      }
    }
    Control.StripAnsiClean(msg);
  }

  /** The server's dictionary of sessions, by id. */
  class SessionStore {
    const sessionDir: string
    var sessions: map<string, Session>

    predicate Valid()
      reads this
    {
      ValidStore(sessionDir, sessions)
    }

    /** The store at start-up: no sessions. */
    constructor (sessionDir: string)
      ensures this.sessionDir == sessionDir && sessions == map[] && Valid()
    {
      this.sessionDir := sessionDir;
      sessions := map[];
    }

    /** `new_session`: the first twelve characters of a fresh `uuid4().hex`
        name a new `loaded` record; the other records stay as they were. */
    method NewSession(hex: string, inputPath: string) returns (sid: string)
      requires Valid()
      modifies this
      ensures Valid()
      ensures sid == if |hex| <= 12 then hex else hex[..12]
      ensures sessions == old(sessions)[sid := Fresh(sessionDir, sid, inputPath)]
    {
      sid := if |hex| <= 12 then hex else hex[..12];
      var sdir := JoinPath(sessionDir, sid);
      var rdir := JoinPath(sdir, "reports");
      var record := Session(sid, inputPath, sdir, rdir, Loaded, "", "", "", "");
      StoreUpdate(sessionDir, sessions, sid, record);
      sessions := sessions[sid := record];
    }

    /** The `/api/analyze` handler from the session lookup to the reply.
        `outcome` is how the analyzer run ended and `reports` the names in the
        reports directory afterwards. It returns the command line it ran the
        analyzer with (empty when the session is unknown). */
    method Analyze(sid: string, mode: string, web: bool, mail: bool, tickets: bool,
                   outcome: RunOutcome, reports: seq<string>)
      returns (args: seq<string>, reply: AnalyzeReply)
      requires Valid()
      modifies this
      ensures Valid()
      ensures sid !in old(sessions) ==> reply == SessionNotFound && args == [] && sessions == old(sessions)
      ensures sid in old(sessions) ==>
        var s := old(sessions)[sid];
        var run := RunAnalyzer(outcome, AnalyzeTimeout);
        && args == AnalyzerArgs(mode, s.reportsDir, web, mail, tickets, s.inputPath)
        && sessions == old(sessions)[sid := AfterAnalysis(s, mode, run, reports)]
        && reply == Analyzed(|reports| > 0, run.code, Control.StripAnsi(run.out),
                             Control.StripAnsi(run.err), reports, sid)
    {
      if sid !in sessions {
        return [], SessionNotFound;
      }
      var s := sessions[sid];
      ghost var head := ["-q", "--no-color", "--mode", mode, "-o", s.reportsDir];
      args := ["-q", "--no-color", "--mode", mode, "-o", s.reportsDir];
      if web {
        args := args + ["--web"];
      }
      assert args == head + (if web then ["--web"] else []);
      if mail {
        args := args + ["--mail"];
      }
      assert args == head + (if web then ["--web"] else []) + (if mail then ["--mail"] else []);
      if tickets {
        args := args + ["--tickets"];
      }
      assert args == head + (if web then ["--web"] else []) + (if mail then ["--mail"] else [])
        + (if tickets then ["--tickets"] else []);
      args := args + [s.inputPath];
      assert args == AnalyzerArgs(mode, s.reportsDir, web, mail, tickets, s.inputPath);
      s := s.(state := Analyzing, analysisMode := mode);
      var run := RunAnalyzer(outcome, AnalyzeTimeout);
      var out := Control.StripAnsi(run.out);
      var err := Control.StripAnsi(run.err);
      s := s.(stdout := out, stderr := err);
      s := s.(state := if run.code == 0 then Done else Error);
      var m := Extract.DeviceId(out);
      if m.Some? {
        s := s.(deviceId := m.value);
      }
      var ok := |reports| > 0;
      if ok {
        s := s.(state := Done);
      }
      ghost var before := sessions[sid];
      assert s.state == FinalState(run.code, reports);
      assert s == AfterAnalysis(before, mode, run, reports);
      AfterAnalysisConsistent(sessionDir, sid, before, mode, run, reports);
      StoreUpdate(sessionDir, sessions, sid, s);
      sessions := sessions[sid := s];
      reply := Analyzed(ok, run.code, out, err, reports, sid);
    }

    /** The session lookup of `/api/session/<sid>`: not found for an unknown
        id, else the stored record, which between requests is never
        `analyzing` and, while `loaded`, is exactly as it was created. */
    method Info(sid: string) returns (r: Option<Session>)
      requires Valid()
      ensures r.None? <==> sid !in sessions
      ensures r.Some? ==> r.value == sessions[sid] && r.value.id == sid
      ensures r.Some? ==> r.value.state != Analyzing
      ensures r.Some? && r.value.state == Loaded ==> r.value == Fresh(sessionDir, sid, r.value.inputPath)
    {
      if sid !in sessions {
        return None;
      }
      r := Some(sessions[sid]);
    }

    /** `search_logs` for session `sid`: nothing for an unknown session, else
        the search over the session's `parsed` directory (`None` when absent). */
    method SearchLogs(sid: string, parsed: Option<seq<LogSearch.ParsedFile>>, q: LogSearch.Query)
      returns (results: seq<LogSearch.Entry>)
      ensures sid !in sessions ==> results == []
      ensures sid in sessions ==> results == LogSearch.Search(parsed, q)
    {
      if sid !in sessions {
        return [];
      }
      match parsed {
        case None =>
          results := [LogSearch.Entry(None, LogSearch.Placeholder)];
        case Some(files) =>
          results := LogSearch.SearchParsed(files, q);
      }
    }

    /** `list_components` for session `sid`: `None` for an unknown session
        (the empty list), else the table over its `.parsed` files (none when
        the directory is absent). */
    method ListComponents(sid: string, logs: seq<Components.ParsedLog>)
      returns (comps: Option<map<string, Components.Counts>>)
      ensures comps.None? <==> sid !in sessions
      ensures sid in sessions ==> comps == Some(Components.Components(logs))
    {
      if sid !in sessions {
        return None;
      }
      var table := Components.ListComponents(logs);
      comps := Some(table);
    }

    /** `parse_session_results` for session `sid`: `None` for an unknown
        session, else the results read from its captured stdout and its
        reports directory listing. */
    method ParseSessionResults(sid: string, listing: seq<Extract.ListedFile>)
      returns (r: Option<Extract.AnalysisResults>)
      ensures r.None? <==> sid !in sessions
      ensures sid in sessions ==>
        r == Some(Extract.Results(sessions[sid].stdout, sessions[sid].reportsDir, listing))
    {
      if sid !in sessions {
        return None;
      }
      var s := sessions[sid];
      var results := Extract.ParseSessionResults(s.stdout, s.reportsDir, listing);
      r := Some(results);
    }
  }
}
