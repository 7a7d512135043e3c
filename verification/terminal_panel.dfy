/**
 * The terminal panel as an object. Its fields are the panel's own
 * (m_Pid, m_Process, m_InputStart, the timer) plus the text control's
 * transcript and insertion point, and the records of what went out to the
 * operating system. Every handler is proved to move the abstract state as
 * the functions of module TerminalStates say.
 */
module Terminal {
  import opened Options
  import opened Environment
  import opened TerminalStates

  class TerminalPanel {
    var text: string              // the text control's contents
    var insertion: int            // its insertion point
    var inputStart: int           // m_InputStart
    var pid: int                  // m_Pid
    var process: bool             // m_Process != nullptr
    var timer: bool               // m_Timer running
    var launches: seq<Launch>     // spawn requests made
    var stdinWrites: seq<string>  // writes to the program's stdin
    var signalled: seq<int>       // pids sent SIGTERM

    ghost function State(): PanelState
      reads this
    {
      PanelState(text, insertion, inputStart, pid, process, timer, launches, stdinWrites, signalled)
    }

    ghost predicate Valid()
      reads this
    {
      State().WellFormed()
    }

    /** IsRunning: a non-zero pid. */
    function IsRunning(): (r: bool)
      reads this
      ensures r <==> State().IsRunning()
      ensures Valid() ==> (r <==> process && timer)
    {
      pid != 0
    }

    /** The constructor: the welcome line, then the boundary at its end. */
    constructor ()
      ensures Valid() && State() == Initial()
    {
      text := Welcome;
      insertion := |Welcome|;
      inputStart := |Welcome|;
      pid := 0;
      process := false;
      timer := false;
      launches := [];
      stdinWrites := [];
      signalled := [];
    }

    /** Clear: the control emptied and the boundary reset. */
    method Clear()
      requires State().Bounded()
      modifies this
      ensures State() == old(State()).(text := [], cursor := 0, inputStart := 0)
    {
      text := [];
      insertion := 0;
      inputStart := 0;
    }

    /**
     * RunProgram with the outside world as parameters: `current` is the
     * process environment wxGetEnvMap returns and `spawnedPid` what the
     * spawn returns (0 on failure).
     */
    method RunProgram(program: string, workingDir: string, env: seq<string>,
                      current: EnvMap, spawnedPid: int) returns (started: bool)
      requires Valid()
      modifies this
      ensures Valid()
      ensures (State(), started) == Run(old(State()), program, workingDir, env, current, spawnedPid)
    {
      if IsRunning() {
        return false;
      }
      ghost var s0 := State();
      Clear();
      text := text + RunningBanner(program);
      insertion := |text|;
      inputStart := |text|;

      process := true;
      var request := LaunchRequest(program, workingDir, env, current);
      launches := launches + [request];
      pid := spawnedPid;
      ghost var banner := RunningBanner(program);
      ghost var launched := Cleared(s0).(text := banner, cursor := |banner|, inputStart := |banner|,
                                         process := true, launches := s0.launches + [request], pid := spawnedPid);
      assert State() == launched;

      if pid == 0 {
        text := text + FailureMessage;
        insertion := |text|;
        process := false;
        assert State() == launched.(text := banner + FailureMessage, cursor := |banner + FailureMessage|, process := false);
        return false;
      }
      timer := true;
      assert State() == launched.(timer := true);
      return true;
    }

    /**
     * The spawn request RunProgram builds: the working directory when one is
     * given, and the current environment overlaid with the entries when any
     * are given; no environment at all when neither is.
     */
    static method LaunchRequest(program: string, workingDir: string, env: seq<string>,
                                current: EnvMap) returns (request: Launch)
      ensures request == Launch(program, LaunchEnv(workingDir, env, current))
    {
      var cwd := "";
      if workingDir != [] {
        cwd := workingDir;
      }
      var envMap: EnvMap := map[];
      if env != [] {
        envMap := BuildEnvironment(current, env);
      }
      var execEnv := if env != [] || workingDir != [] then Some(ExecEnv(cwd, envMap)) else None;
      request := Launch(program, execEnv);
    }

    /** StopProgram: SIGTERM a live pid and drop the process. */
    method StopProgram()
      requires Valid()
      modifies this
      ensures Valid() && State() == Stopped(old(State()))
    {
      if pid != 0 {
        timer := false;
        signalled := signalled + [pid];
        pid := 0;
      }
      if process {
        process := false;
      }
    }

    /** OnEndProcess, with the exit code and the streams' last chunks as parameters. */
    method OnEndProcess(exitCode: int, outChunks: seq<string>, errChunks: seq<string>)
      requires Valid()
      modifies this
      ensures Valid() && State() == Ended(old(State()), exitCode, outChunks, errChunks)
    {
      timer := false;
      ReadOutputStream(outChunks, errChunks);
      text := text + ExitBanner(exitCode);
      insertion := |text|;
      process := false;
      pid := 0;
    }

    /** OnTimer: the poll. */
    method OnTimer(outChunks: seq<string>, errChunks: seq<string>)
      requires Valid()
      modifies this
      ensures Valid() && State() == Poll(old(State()), outChunks, errChunks)
    {
      if IsRunning() {
        ReadOutputStream(outChunks, errChunks);
      }
    }

    /**
     * ReadOutputStream: the chunks stdout yields, then those stderr yields,
     * each list standing for the reads until one returns nothing.
     */
    method ReadOutputStream(outChunks: seq<string>, errChunks: seq<string>)
      requires State().Bounded()
      modifies this
      ensures State() == Read(old(State()), outChunks, errChunks)
    {
      if !process {
        return;
      }
      DrainStream(outChunks);
      DrainStream(errChunks);
    }

    /** One drain loop: each non-empty chunk is written at the boundary, which moves past it. */
    method DrainStream(chunks: seq<string>)
      requires State().Bounded() && process
      modifies this
      ensures State() == WithOutput(old(State()), Drained(chunks))
    {
      ghost var s0 := State();
      ghost var inserted: string := [];
      assert InsertAt(s0.text, s0.inputStart, []) == s0.text;
      var i := 0;
      while i < |chunks|
        invariant 0 <= i <= |chunks|
        invariant inserted + Drained(chunks[i..]) == Drained(chunks)
        invariant State() == WithOutput(s0, inserted)
      {
        var output := chunks[i];
        if output == [] {
          assert chunks[i..][0] == output;
          assert inserted == Drained(chunks);
          break;
        }
        WriteOutput(output);
        WithOutputTwice(s0, inserted, output);
        assert chunks[i..][1..] == chunks[i + 1..];
        inserted := inserted + output;
        i := i + 1;
      }
      assert inserted == Drained(chunks) by {
        if i == |chunks| {
          assert chunks[i..] == [];
        }
      }
    }

    /** One chunk written at the boundary; the boundary and the cursor move past it. */
    method WriteOutput(output: string)
      requires State().Bounded() && process && output != []
      modifies this
      ensures State() == WithOutput(old(State()), output)
    {
      insertion := inputStart;
      text := text[..insertion] + output + text[insertion..];
      insertion := insertion + |output|;
      inputStart := insertion;
    }

    /** WriteToInput: the text goes to the program's stdin when there is a process. */
    method WriteToInput(input: string)
      modifies this
      ensures State() == SendInput(old(State()), input)
    {
      if !process {
        return;
      }
      stdinWrites := stdinWrites + [input];
    }

    /** OnChar: returns whether the key is passed on (event.Skip()). */
    method OnChar(keyCode: int, controlDown: bool) returns (skipped: bool)
      requires Valid()
      modifies this
      ensures Valid()
      ensures (State(), skipped) == Key(old(State()), keyCode, controlDown)
    {
      if !IsRunning() {
        return true;
      }
      if keyCode == ReturnKey || keyCode == NumpadEnterKey {
        var currentPos := insertion;
        if currentPos >= inputStart {
          var input := text[inputStart..];
          input := input + "\n";
          WriteToInput(input);
          text := text + "\n";
          insertion := |text|;
          inputStart := |text|;
        }
        return false;
      }
      if keyCode == BackKey {
        if insertion <= inputStart {
          return false;
        }
      }
      if insertion < inputStart && !controlDown {
        insertion := |text|;
        return false;
      }
      return true;
    }

    /** The control's handling of a key passed on to it, reduced to plain typing. */
    method TypeKey(keyCode: int, controlDown: bool)
      requires Valid() && PassedOn(State(), keyCode, controlDown)
      modifies this
      ensures Valid() && State() == Typed(old(State()), keyCode, controlDown)
    {
      if controlDown {
        return;
      }
      if 32 <= keyCode < 127 {
        text := text[..insertion] + [keyCode as char] + text[insertion..];
        insertion := insertion + 1;
      } else if keyCode == BackKey && insertion > 0 {
        text := text[..insertion - 1] + text[insertion..];
        insertion := insertion - 1;
      }
    }

    /** A key press: OnChar, then the control when the key was passed on. */
    method KeyPress(keyCode: int, controlDown: bool)
      requires Valid()
      modifies this
      ensures Valid() && State() == Press(old(State()), keyCode, controlDown)
    {
      var skipped := OnChar(keyCode, controlDown);
      if skipped {
        TypeKey(keyCode, controlDown);
      }
    }
  }
}
