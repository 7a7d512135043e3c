/**
 * The terminal panel as a state machine over values. The transcript is a
 * string with a cursor (the control's insertion point) and an input
 * boundary (m_InputStart): text before the boundary is program output and
 * echo, text after it is the line being typed. A program runs while its
 * pid is non-zero. Spawning, the streams and stdin are the outside world:
 * the pid a spawn yields and the chunks a read returns are inputs, and what
 * the panel sends out (launch requests, stdin writes, SIGTERM targets) is
 * recorded in the state.
 */
module TerminalStates {
  import opened Options
  import opened Numerals
  import opened Environment

  const BackKey: int := 8            // WXK_BACK
  const ReturnKey: int := 13         // WXK_RETURN
  const NumpadEnterKey: int := 370   // WXK_NUMPAD_ENTER

  const Welcome: string := "Terminal Panel - Programs run here automatically\n\n"
  const FailureMessage: string := "Failed to start program.\n"

  /** `Running: %s\n` */
  function RunningBanner(program: string): string {
    "Running: " + program + "\n"
  }

  /** `\nProgram exited with code %d\n` */
  function ExitBanner(exitCode: int): string {
    "\nProgram exited with code " + Decimal(exitCode) + "\n"
  }

  /** The wxExecuteEnv handed to the spawn: working directory and environment map. */
  datatype ExecEnv = ExecEnv(cwd: string, env: EnvMap)

  /** One spawn request: the command line, and the environment when one is passed. */
  datatype Launch = Launch(command: string, execEnv: Option<ExecEnv>)

  datatype PanelState = PanelState(
    text: string,          // the transcript in the text control
    cursor: int,           // the control's insertion point
    inputStart: int,       // m_InputStart
    pid: int,              // m_Pid
    process: bool,         // m_Process != nullptr
    timer: bool,           // m_Timer running
    launches: seq<Launch>, // spawn requests made
    stdin: seq<string>,    // writes to the program's stdin
    signals: seq<int>)     // pids sent SIGTERM
  {
    /** Positions lie inside the text; the boundary does too while a process is attached. */
    predicate Bounded() {
      0 <= cursor <= |text| && 0 <= inputStart && (process ==> inputStart <= |text|)
    }

    /** Bounded, and a process and the poll timer exist exactly while the pid is non-zero. */
    predicate WellFormed() {
      Bounded() && process == (pid != 0) && timer == (pid != 0)
    }

    predicate IsRunning() { pid != 0 }
  }

  /** The panel as built: the welcome line, the boundary after it, nothing running. */
  function Initial(): (s: PanelState)
    ensures s.WellFormed() && !s.IsRunning()
    ensures s.text == Welcome && s.inputStart == |s.text|
  {
    PanelState(Welcome, |Welcome|, |Welcome|, 0, false, false, [], [], [])
  }

  /** Clear: the transcript emptied, cursor and boundary at 0; the process is untouched. */
  function Cleared(s: PanelState): (r: PanelState)
    requires s.WellFormed()
    ensures r.WellFormed() && r.text == [] && r.inputStart == 0
    ensures r.(text := s.text, cursor := s.cursor, inputStart := s.inputStart) == s
  {
    s.(text := [], cursor := 0, inputStart := 0)
  }

  // ---------------------------------------------------------------------
  // Inserting at the boundary

  /** `s` written into `t` at position `at`. */
  function InsertAt(t: string, at: int, s: string): (r: string)
    requires 0 <= at <= |t|
    ensures |r| == |t| + |s|
    ensures r[..at] == t[..at] && r[at..at + |s|] == s && r[at + |s|..] == t[at..]
  {
    t[..at] + s + t[at..]
  }

  /** Writing two pieces one after the other at a moving boundary writes their concatenation. */
  lemma InsertAtTwice(t: string, at: int, s1: string, s2: string)
    requires 0 <= at <= |t|
    ensures InsertAt(InsertAt(t, at, s1), at + |s1|, s2) == InsertAt(t, at, s1 + s2)
  {
    var once := InsertAt(t, at, s1);
    assert once[..at + |s1|] == t[..at] + s1;
    assert once[at + |s1|..] == t[at..];
  }

  /**
   * The text a drain loop inserts: the chunks in order, up to the first
   * empty one (a read of zero bytes ends the loop).
   */
  function Drained(chunks: seq<string>): (r: string)
    ensures r == [] <==> chunks == [] || chunks[0] == []
    decreases |chunks|
  {
    if chunks == [] || chunks[0] == [] then [] else chunks[0] + Drained(chunks[1..])
  }

  /** All the chunks, concatenated. */
  function Concat(chunks: seq<string>): string
    decreases |chunks|
  {
    if chunks == [] then [] else Concat(chunks[..|chunks| - 1]) + chunks[|chunks| - 1]
  }

  /** The drained text is exactly the chunks before the first empty one. */
  lemma {:induction false} DrainedStopsAtFirstEmpty(chunks: seq<string>, n: int)
    requires 0 <= n <= |chunks|
    requires forall i :: 0 <= i < n ==> chunks[i] != []
    requires n == |chunks| || chunks[n] == []
    ensures Drained(chunks) == Concat(chunks[..n])
    decreases n
  {
    if n == 0 {
      assert chunks[..0] == [];
    } else {
      var rest := chunks[1..];
      forall i | 0 <= i < n - 1
        ensures rest[i] != []
      {
        assert rest[i] == chunks[i + 1];
      }
      DrainedStopsAtFirstEmpty(rest, n - 1);
      ConcatCons(chunks[..n]);
      assert chunks[..n][1..] == rest[..n - 1];
    }
  }

  /** Concat peeled from the front. */
  lemma {:induction false} ConcatCons(chunks: seq<string>)
    requires chunks != []
    ensures Concat(chunks) == chunks[0] + Concat(chunks[1..])
    decreases |chunks|
  {
    if |chunks| == 1 {
      assert chunks[..0] == [] && chunks[1..] == [];
    } else {
      var init := chunks[..|chunks| - 1];
      ConcatCons(init);
      assert init[1..] == chunks[1..][..|chunks[1..]| - 1];
      assert init[0] == chunks[0];
    }
  }

  /**
   * Output inserted at the boundary: the text before the boundary and the
   * line being typed after it are kept, the boundary moves past the output,
   * and the cursor is left at the boundary when anything was written.
   */
  function WithOutput(s: PanelState, out: string): (r: PanelState)
    requires s.Bounded() && s.inputStart <= |s.text|
    ensures r.Bounded() && r.inputStart == s.inputStart + |out| && r.inputStart <= |r.text|
    ensures r.text == InsertAt(s.text, s.inputStart, out)
    ensures r.cursor == if out == [] then s.cursor else r.inputStart
    ensures r.(text := s.text, cursor := s.cursor, inputStart := s.inputStart) == s
  {
    var text := InsertAt(s.text, s.inputStart, out);
    var boundary := s.inputStart + |out|;
    s.(text := text, inputStart := boundary, cursor := if out == [] then s.cursor else boundary)
  }

  /** Output written in two pieces is output written at once. */
  lemma WithOutputTwice(s: PanelState, out1: string, out2: string)
    requires s.Bounded() && s.inputStart <= |s.text|
    ensures WithOutput(WithOutput(s, out1), out2) == WithOutput(s, out1 + out2)
  {
    InsertAtTwice(s.text, s.inputStart, out1, out2);
  }

  /** ReadOutputStream: with a process attached, stdout's chunks then stderr's go in at the boundary. */
  function Read(s: PanelState, outChunks: seq<string>, errChunks: seq<string>): (r: PanelState)
    requires s.Bounded()
    ensures r.Bounded()
    ensures r.(text := s.text, cursor := s.cursor, inputStart := s.inputStart) == s
  {
    if !s.process then s
    else WithOutput(WithOutput(s, Drained(outChunks)), Drained(errChunks))
  }

  /**
   * What a read does to the transcript: the drained stdout text and then
   * the drained stderr text appear at the boundary, nothing before the
   * boundary changes, and the line being typed stays after the new boundary.
   */
  lemma ReadInsertsAtBoundary(s: PanelState, outChunks: seq<string>, errChunks: seq<string>)
    requires s.Bounded() && s.process
    ensures var out := Drained(outChunks) + Drained(errChunks);
      var r := Read(s, outChunks, errChunks);
      r.text == InsertAt(s.text, s.inputStart, out) &&
      r.inputStart == s.inputStart + |out| &&
      r.text[..s.inputStart] == s.text[..s.inputStart] &&
      r.text[r.inputStart..] == s.text[s.inputStart..]
  {
    InsertAtTwice(s.text, s.inputStart, Drained(outChunks), Drained(errChunks));
  }

  /** OnTimer: poll the streams only while running. */
  function Poll(s: PanelState, outChunks: seq<string>, errChunks: seq<string>): (r: PanelState)
    requires s.WellFormed()
    ensures r.WellFormed()
    ensures !s.IsRunning() ==> r == s
  {
    if s.IsRunning() then Read(s, outChunks, errChunks) else s
  }

  // ---------------------------------------------------------------------
  // Starting and stopping

  /** The environment passed to the spawn: only when a directory or entries are given. */
  function LaunchEnv(workingDir: string, env: seq<string>, current: EnvMap): (r: Option<ExecEnv>)
    ensures r.Some? <==> (env != [] || workingDir != [])
    ensures r.Some? ==> r.value.cwd == workingDir
    ensures r.Some? && env != [] ==> r.value.env == Overlay(current, env)
    ensures r.Some? && env == [] ==> r.value.env == map[]
  {
    var cwd := if workingDir != [] then workingDir else "";
    var envMap := if env != [] then Overlay(current, env) else map[];
    if env != [] || workingDir != [] then Some(ExecEnv(cwd, envMap)) else None
  }

  /**
   * RunProgram: refused while running; otherwise the transcript restarts
   * with the banner, the boundary after it, the spawn is requested, and a
   * zero pid leaves the panel idle with the failure message.
   */
  function Run(s: PanelState, program: string, workingDir: string, env: seq<string>,
               current: EnvMap, spawnedPid: int): (r: (PanelState, bool))
    requires s.WellFormed()
    ensures r.0.WellFormed()
    ensures s.IsRunning() ==> r == (s, false)
    ensures !s.IsRunning() ==>
      (r.1 <==> spawnedPid != 0) && (r.0.IsRunning() <==> r.1) &&
      r.0.launches == s.launches + [Launch(program, LaunchEnv(workingDir, env, current))] &&
      r.0.inputStart == |RunningBanner(program)| &&
      r.0.text == RunningBanner(program) + (if r.1 then "" else FailureMessage) &&
      r.0.cursor == |r.0.text| && r.0.stdin == s.stdin && r.0.signals == s.signals
    ensures !s.IsRunning() ==> r.0.pid == spawnedPid && (r.0.timer <==> r.1)
  {
    if s.IsRunning() then (s, false)
    else
      var banner := RunningBanner(program);
      var launched := Cleared(s).(text := banner, cursor := |banner|, inputStart := |banner|,
                                  process := true,
                                  launches := s.launches + [Launch(program, LaunchEnv(workingDir, env, current))],
                                  pid := spawnedPid);
      if spawnedPid == 0 then
        var text := banner + FailureMessage;
        (launched.(text := text, cursor := |text|, process := false), false)
      else (launched.(timer := true), true)
  }

  /** StopProgram: SIGTERM to a live pid, then no pid, no process, no timer. */
  function Stopped(s: PanelState): (r: PanelState)
    requires s.WellFormed()
    ensures r.WellFormed() && !r.IsRunning()
    ensures r.signals == s.signals + (if s.IsRunning() then [s.pid] else [])
    ensures r.(pid := s.pid, process := s.process, timer := s.timer, signals := s.signals) == s
  {
    var killed := if s.pid != 0 then s.(timer := false, signals := s.signals + [s.pid], pid := 0) else s;
    if killed.process then killed.(process := false) else killed
  }

  /** Stopping an idle panel does nothing, so stopping twice is stopping once. */
  lemma StopIdempotent(s: PanelState)
    requires s.WellFormed()
    ensures !s.IsRunning() ==> Stopped(s) == s
    ensures Stopped(Stopped(s)) == Stopped(s)
  {
  }

  /**
   * OnEndProcess: the timer stops, the last output is read, the exit code
   * is appended (after the boundary), and the panel is idle.
   */
  function Ended(s: PanelState, exitCode: int, outChunks: seq<string>, errChunks: seq<string>): (r: PanelState)
    requires s.WellFormed()
    ensures r.WellFormed() && !r.IsRunning()
    ensures var read := Read(s, outChunks, errChunks);
      r.text == read.text + ExitBanner(exitCode) && r.inputStart == read.inputStart
    ensures r.cursor == |r.text| && !r.timer
    ensures r.launches == s.launches && r.stdin == s.stdin && r.signals == s.signals
  {
    var read := Read(s.(timer := false), outChunks, errChunks);
    var text := read.text + ExitBanner(exitCode);
    read.(text := text, cursor := |text|, process := false, pid := 0)
  }

  /** After the program ends a new one may be started: RunProgram is not refused. */
  lemma EndedAllowsRun(s: PanelState, exitCode: int, outChunks: seq<string>, errChunks: seq<string>,
                       program: string, workingDir: string, env: seq<string>, current: EnvMap, spawnedPid: int)
    requires s.WellFormed()
    ensures var r := Run(Ended(s, exitCode, outChunks, errChunks), program, workingDir, env, current, spawnedPid);
      r.1 <==> spawnedPid != 0
  {
  }

  // ---------------------------------------------------------------------
  // Keys

  predicate IsEnter(keyCode: int) { keyCode == ReturnKey || keyCode == NumpadEnterKey }

  /** WriteToInput: the text goes to stdin when a process is attached. */
  function SendInput(s: PanelState, input: string): (r: PanelState)
    ensures r.stdin == s.stdin + (if s.process then [input] else [])
    ensures r.(stdin := s.stdin) == s
  {
    if s.process then s.(stdin := s.stdin + [input]) else s
  }

  /**
   * OnChar: the new state and whether the key is passed on (Skip) to the
   * control's own handling.
   */
  function Key(s: PanelState, keyCode: int, controlDown: bool): (r: (PanelState, bool))
    requires s.WellFormed()
    ensures r.0.WellFormed()
    ensures r.1 ==> r.0 == s && PassedOn(s, keyCode, controlDown)
  {
    if !s.IsRunning() then (s, true)
    else if IsEnter(keyCode) then
      if s.cursor >= s.inputStart then
        var sent := SendInput(s, s.text[s.inputStart..] + "\n");
        var text := s.text + "\n";
        (sent.(text := text, cursor := |text|, inputStart := |text|), false)
      else (s, false)
    else if keyCode == BackKey && s.cursor <= s.inputStart then (s, false)
    else if s.cursor < s.inputStart && !controlDown then (s.(cursor := |s.text|), false)
    else (s, true)
  }

  /** While no program runs, every key passes through and the panel is untouched. */
  lemma IdleKeyPassesThrough(s: PanelState, keyCode: int, controlDown: bool)
    requires s.WellFormed() && !s.IsRunning()
    ensures Key(s, keyCode, controlDown) == (s, true)
  {
  }

  /**
   * Enter while running: with the cursor at or after the boundary the typed
   * line and a newline go to stdin, a newline is appended and the boundary
   * moves to the end; with the cursor before the boundary nothing happens.
   * Either way the key is consumed.
   */
  lemma EnterSendsLine(s: PanelState, keyCode: int, controlDown: bool)
    requires s.WellFormed() && s.IsRunning() && IsEnter(keyCode)
    ensures var r := Key(s, keyCode, controlDown);
      !r.1 &&
      if s.cursor >= s.inputStart then
        r.0.stdin == s.stdin + [s.text[s.inputStart..] + "\n"] &&
        r.0.text == s.text + "\n" && r.0.inputStart == |r.0.text| && r.0.cursor == |r.0.text|
      else r.0 == s
  {
  }

  /**
   * Keys other than Enter while running: Backspace at or before the boundary
   * is dropped; any key with the cursor before the boundary and Ctrl up
   * sends the cursor to the end and is dropped; the rest pass through.
   * None of them writes to stdin or edits the text.
   */
  lemma GuardedKeys(s: PanelState, keyCode: int, controlDown: bool)
    requires s.WellFormed() && s.IsRunning() && !IsEnter(keyCode)
    ensures var r := Key(s, keyCode, controlDown);
      r.0.text == s.text && r.0.stdin == s.stdin && r.0.inputStart == s.inputStart &&
      (keyCode == BackKey && s.cursor <= s.inputStart ==> !r.1 && r.0 == s) &&
      (!(keyCode == BackKey && s.cursor <= s.inputStart) && s.cursor < s.inputStart && !controlDown ==>
         !r.1 && r.0.cursor == |s.text|) &&
      (r.1 <==> !(keyCode == BackKey && s.cursor <= s.inputStart) && (s.cursor >= s.inputStart || controlDown))
  {
  }

  /**
   * The keys OnChar lets through: all of them while idle, and while running
   * those with Ctrl down or with the cursor at or after the boundary, except
   * Backspace at the boundary itself.
   */
  predicate PassedOn(s: PanelState, keyCode: int, controlDown: bool) {
    !s.IsRunning() || controlDown ||
    (s.cursor >= s.inputStart && !(keyCode == BackKey && s.cursor <= s.inputStart))
  }

  /**
   * The text control's own handling of a key passed on to it, reduced to
   * plain typing: a printable character is inserted at the cursor and
   * Backspace removes the character before it; keys with Ctrl and all other
   * keys leave the text alone.
   */
  function Typed(s: PanelState, keyCode: int, controlDown: bool): (r: PanelState)
    requires s.WellFormed() && PassedOn(s, keyCode, controlDown)
    ensures r.WellFormed()
    ensures r.(text := s.text, cursor := s.cursor) == s
  {
    if controlDown then s
    else if 32 <= keyCode < 127 then
      s.(text := InsertAt(s.text, s.cursor, [keyCode as char]), cursor := s.cursor + 1)
    else if keyCode == BackKey && s.cursor > 0 then
      s.(text := s.text[..s.cursor - 1] + s.text[s.cursor..], cursor := s.cursor - 1)
    else s
  }

  /** One key press: OnChar, then the control's handling when the key was passed on. */
  function Press(s: PanelState, keyCode: int, controlDown: bool): (r: PanelState)
    requires s.WellFormed()
    ensures r.WellFormed()
  {
    var (handled, skipped) := Key(s, keyCode, controlDown);
    if skipped then Typed(handled, keyCode, controlDown) else handled
  }

  /**
   * While a program runs, and with the text control's own editing reduced
   * as in Typed, no key press changes the text before the input boundary
   * or moves the boundary back, and only Enter writes to stdin.
   */
  lemma PressKeepsCommittedText(s: PanelState, keyCode: int, controlDown: bool)
    requires s.WellFormed() && s.IsRunning()
    ensures var r := Press(s, keyCode, controlDown);
      r.inputStart >= s.inputStart && r.text[..s.inputStart] == s.text[..s.inputStart] &&
      (!IsEnter(keyCode) ==> r.stdin == s.stdin && r.inputStart == s.inputStart)
  {
    var (handled, skipped) := Key(s, keyCode, controlDown);
    if IsEnter(keyCode) {
      EnterSendsLine(s, keyCode, controlDown);
      if s.cursor >= s.inputStart {
        assert handled.text[..s.inputStart] == s.text[..s.inputStart];
      }
    } else {
      GuardedKeys(s, keyCode, controlDown);
      if skipped && !controlDown {
        assert s.cursor >= s.inputStart;
        if 32 <= keyCode < 127 {
          var t := InsertAt(s.text, s.cursor, [keyCode as char]);
          assert t[..s.inputStart] == t[..s.cursor][..s.inputStart];
        } else if keyCode == BackKey && s.cursor > 0 {
          assert s.cursor > s.inputStart;
          var t := s.text[..s.cursor - 1] + s.text[s.cursor..];
          assert t[..s.inputStart] == s.text[..s.cursor - 1][..s.inputStart];
        }
      }
    }
  }
}
