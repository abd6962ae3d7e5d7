/** The server process handle `server_proc` and the operations that set and
    clear it: start, send a command, stop (and its waiter thread), the
    console reader thread, and force-kill. Each step guarded by `proc_lock`
    is one atomic step; what `poll`, `wait` and `Popen` report is an input.
    A process is known by the number of the `Popen` call that created it. */
module Lifecycle {
  import opened Wrappers
  import opened PyStr

  type Proc = nat

  /** The handle, the number the next started process gets, and every text
      written to some process's stdin, in order. */
  datatype Machine = Machine(held: Option<Proc>, next: Proc, sent: seq<(Proc, string)>)

  /** A held handle is always the most recently started process. */
  predicate Newest(m: Machine) {
    m.held.Some? ==> m.held.value + 1 == m.next
  }

  const Initial := Machine(None, 0, [])

  // ---------------------------------------------------------------- steps

  datatype StartOutcome = AlreadyRunning | NoJar | SpawnFailed | Started(proc: Proc)

  /** `start_server`: refused while a handle is held or without a jar; the
      handle is stored only after `Popen` succeeds. */
  function Start(m: Machine, hasJar: bool, spawnOk: bool): (Machine, StartOutcome) {
    if m.held.Some? then (m, AlreadyRunning)
    else if !hasJar then (m, NoJar)
    else if !spawnOk then (m, SpawnFailed)
    else (Machine(Some(m.next), m.next + 1, m.sent), Started(m.next))
  }

  /** `send_command`: nothing for blank input; refused without a running
      process; otherwise the stripped command and one newline are written. */
  function Send(m: Machine, input: string, running: bool): (Machine, Option<string>) {
    var cmd := Strip(input);
    if cmd == [] || m.held.None? || !running then (m, None)
    else
      var text := cmd + "\n";
      (m.(sent := m.sent + [(m.held.value, text)]), Some(text))
  }

  /** `stop_server`: `"stop\n"` goes to a running process; the waiter thread
      is started on the held process either way, and is returned. */
  function Stop(m: Machine, running: bool): (Machine, Option<Proc>) {
    if m.held.None? then (m, None)
    else
      var p := m.held.value;
      ((if running then m.(sent := m.sent + [(p, "stop\n")]) else m), Some(p))
  }

  /** What `proc.wait(timeout=30)` did in the waiter. */
  datatype WaitOutcome = Exited | TimedOut | WaitFailed

  /** The waiter on `proc`: once it has exited, the handle is cleared if it
      still holds that very process. */
  function WaiterDone(m: Machine, proc: Proc, outcome: WaitOutcome): Machine {
    if outcome == Exited && m.held == Some(proc) then m.(held := None) else m
  }

  /** The end of the reader thread of `proc`, as written: once `proc` has
      exited, the handle is cleared whatever it holds. */
  function ReaderDoneAsWritten(m: Machine, proc: Proc, exited: bool): Machine {
    if exited then m.(held := None) else m
  }

  /** The end of the reader thread with the waiter's identity check. */
  function ReaderDone(m: Machine, proc: Proc, exited: bool): Machine {
    if exited && m.held == Some(proc) then m.(held := None) else m
  }

  /** `force_kill_server`: whatever terminate, kill and wait did, the handle
      is cleared. */
  function ForceKill(m: Machine): Machine {
    m.(held := None)
  }

  // ---------------------------------------------------------------- one step at a time

  /** Starting while a handle is held is refused and changes nothing; a failed
      spawn leaves no handle; a successful one holds a process never started
      before. */
  lemma {:induction false} StartRules(m: Machine, hasJar: bool, spawnOk: bool)
    requires Newest(m)
    ensures var (m', o) := Start(m, hasJar, spawnOk);
      Newest(m')
      && (m.held.Some? ==> o == AlreadyRunning && m' == m)
      && (o.SpawnFailed? ==> m'.held.None?)
      && (o.Started? <==> m.held.None? && hasJar && spawnOk)
      && (o.Started? ==> m'.held == Some(o.proc) && o.proc >= m.next && m'.sent == m.sent)
      && (!o.Started? ==> m' == m)
  {
  }

  /** A command goes to the held process as its stripped text and exactly one
      newline; blank input, no handle or an exited process write nothing. */
  lemma {:induction false} SendRules(m: Machine, input: string, running: bool)
    ensures var (m', w) := Send(m, input, running);
      m'.held == m.held && m'.next == m.next
      && (w.None? <==> (Strip(input) == [] || m.held.None? || !running))
      && (w.None? ==> m' == m)
      && (w.Some? ==>
            w.value == Strip(input) + "\n"
            && w.value[|w.value| - 1] == '\n'
            && w.value[|w.value| - 2] != '\n'
            && m'.sent == m.sent + [(m.held.value, w.value)])
  {
    var cmd := Strip(input);
    if cmd != [] {
      assert IsSpace('\n') by {
        assert InRanges('\n', SpaceRanges);
      }
    }
  }

  /** Stopping writes `stop\n` only to a running process and keeps the
      handle; the waiter watches the process held at that moment. */
  lemma {:induction false} StopRules(m: Machine, running: bool)
    ensures var (m', waiter) := Stop(m, running);
      m'.held == m.held && m'.next == m.next && waiter == m.held
      && m'.sent == (if m.held.Some? && running then m.sent + [(m.held.value, "stop\n")] else m.sent)
  {
  }

  /** A waiter or reader whose process is no longer the held one leaves the
      handle alone; on the held process they clear it once it has exited. */
  lemma {:induction false} StaleStepsHarmless(m: Machine, proc: Proc, o: WaitOutcome, exited: bool)
    ensures m.held != Some(proc) ==> WaiterDone(m, proc, o) == m && ReaderDone(m, proc, exited) == m
    ensures m.held == Some(proc) ==> (WaiterDone(m, proc, o).held.None? <==> o == Exited)
    ensures m.held == Some(proc) ==> (ReaderDone(m, proc, exited).held.None? <==> exited)
  {
  }

  // ---------------------------------------------------------------- runs

  datatype Event =
    | StartEv(hasJar: bool, spawnOk: bool)
    | SendEv(input: string, running: bool)
    | StopEv(running: bool)
    | WaiterEv(proc: Proc, outcome: WaitOutcome)
    | ReaderEv(proc: Proc, exited: bool)
    | KillEv

  /** One event, with the reader as written or with the identity check. */
  function Step(m: Machine, e: Event, checked: bool): Machine {
    match e
    case StartEv(j, s) => Start(m, j, s).0
    case SendEv(i, r) => Send(m, i, r).0
    case StopEv(r) => Stop(m, r).0
    case WaiterEv(p, o) => WaiterDone(m, p, o)
    case ReaderEv(p, x) => if checked then ReaderDone(m, p, x) else ReaderDoneAsWritten(m, p, x)
    case KillEv => ForceKill(m)
  }

  function Run(m: Machine, es: seq<Event>, checked: bool): Machine
    decreases |es|
  {
    if es == [] then m else Run(Step(m, es[0], checked), es[1..], checked)
  }

  /** Does event `e` end process `p`: its waiter or reader seeing it exit,
      or a force-kill? */
  predicate Ends(e: Event, p: Proc) {
    e.KillEv? || (e.WaiterEv? && e.proc == p && e.outcome == Exited) || (e.ReaderEv? && e.proc == p && e.exited)
  }

  /** Every step keeps the handle the newest process. */
  lemma {:induction false} StepKeepsNewest(m: Machine, e: Event, checked: bool)
    requires Newest(m)
    ensures Newest(Step(m, e, checked)) && Step(m, e, checked).next >= m.next
  {
  }

  /** With the identity check, a held process stays held through any events
      until one of them ends that very process: a stale waiter or reader
      never discards a newer process. */
  lemma {:induction false} HeldUntilEnded(m: Machine, es: seq<Event>, p: Proc)
    requires m.held == Some(p)
    requires forall i :: 0 <= i < |es| ==> !Ends(es[i], p)
    ensures Run(m, es, true).held == Some(p)
    decreases |es|
  {
    if es != [] {
      var m' := Step(m, es[0], true);
      assert !Ends(es[0], p);
      assert m'.held == Some(p);
      HeldUntilEnded(m', es[1..], p);
    }
  }

  /** Runs from the start keep the handle the newest process. */
  lemma {:induction false} RunKeepsNewest(m: Machine, es: seq<Event>, checked: bool)
    requires Newest(m)
    ensures Newest(Run(m, es, checked))
    decreases |es|
  {
    if es != [] {
      StepKeepsNewest(m, es[0], checked);
      RunKeepsNewest(Step(m, es[0], checked), es[1..], checked);
    }
  }

  /** The reader as written: start process 0, stop it, its waiter sees it
      exit, start process 1; when process 0's reader then finishes it clears
      the handle, and process 1, never stopped, is lost. */
  const StaleReaderRun: seq<Event> := [
    StartEv(true, true),
    StopEv(true),
    WaiterEv(0, Exited),
    StartEv(true, true),
    ReaderEv(0, true)
  ]

  lemma {:induction false} StaleReaderLosesNewer()
    ensures forall i :: 0 <= i < |StaleReaderRun| ==> !Ends(StaleReaderRun[i], 1)
    ensures Run(Initial, StaleReaderRun[..4], false).held == Some(1)
    ensures Run(Initial, StaleReaderRun, false).held == None
    ensures Run(Initial, StaleReaderRun, true).held == Some(1)
  {
    var es := StaleReaderRun;
    var m4 := Machine(Some(1), 2, [(0, "stop\n")]);
    StaleReaderPrefix(false);
    StaleReaderPrefix(true);
    assert es == es[..4] + [es[4]];
    RunAppend(Initial, es[..4], [es[4]], false);
    RunAppend(Initial, es[..4], [es[4]], true);
    assert Run(m4, [es[4]], false) == Run(ReaderDoneAsWritten(m4, 0, true), [], false);
    assert Run(m4, [es[4]], true) == Run(ReaderDone(m4, 0, true), [], true);
  }

  /** Running one list of events and then another is running both. */
  lemma {:induction false} RunAppend(m: Machine, a: seq<Event>, b: seq<Event>, checked: bool)
    ensures Run(m, a + b, checked) == Run(Run(m, a, checked), b, checked)
    decreases |a|
  {
    if a != [] {
      assert (a + b)[0] == a[0] && (a + b)[1..] == a[1..] + b;
      RunAppend(Step(m, a[0], checked), a[1..], b, checked);
    } else {
      assert a + b == b;
    }
  }

  /** The first four events of the run leave process 1 held, with `stop`
      sent to process 0. */
  lemma {:induction false} StaleReaderPrefix(checked: bool)
    ensures Run(Initial, StaleReaderRun[..4], checked) == Machine(Some(1), 2, [(0, "stop\n")])
  {
    var pre := StaleReaderRun[..4];
    var m1 := Step(Initial, pre[0], checked);
    assert m1 == Machine(Some(0), 1, []);
    var m2 := Step(m1, pre[1], checked);
    assert m2 == Machine(Some(0), 1, [(0, "stop\n")]);
    var m3 := Step(m2, pre[2], checked);
    assert m3 == Machine(None, 1, [(0, "stop\n")]);
    var m4 := Step(m3, pre[3], checked);
    assert m4 == Machine(Some(1), 2, [(0, "stop\n")]);
    assert pre[1..][0] == pre[1] && pre[1..][1..][0] == pre[2];
    assert pre[1..][1..][1..][0] == pre[3] && pre[1..][1..][1..][1..] == [];
    assert Run(m3, pre[1..][1..][1..], checked) == m4;
    assert Run(m2, pre[1..][1..], checked) == m4;
    assert Run(m1, pre[1..], checked) == m4;
  }

  // ---------------------------------------------------------------- the object

  /** The application object's process field, updated in place. */
  class Supervisor {
    var serverProc: Option<Proc>
    var nextProc: Proc
    var written: seq<(Proc, string)>

    function State(): Machine
      reads this
    {
      Machine(serverProc, nextProc, written)
    }

    constructor ()
      ensures State() == Initial
    {
      serverProc := None;
      nextProc := 0;
      written := [];
    }

    method StartServer(hasJar: bool, spawnOk: bool) returns (outcome: StartOutcome)
      modifies this
      ensures (State(), outcome) == Start(old(State()), hasJar, spawnOk)
    {
      if serverProc.Some? {
        return AlreadyRunning;
      }
      if !hasJar {
        return NoJar;
      }
      if !spawnOk {
        return SpawnFailed;
      }
      var proc := nextProc;
      nextProc := nextProc + 1;
      serverProc := Some(proc);
      return Started(proc);
    }

    method SendCommand(input: string, running: bool) returns (text: Option<string>)
      modifies this
      ensures (State(), text) == Send(old(State()), input, running)
    {
      var cmd := Strip(input);
      if cmd == [] {
        return None;
      }
      var proc := serverProc;
      if proc.None? || !running {
        return None;
      }
      written := written + [(proc.value, cmd + "\n")];
      return Some(cmd + "\n");
    }

    method StopServer(running: bool) returns (waiter: Option<Proc>)
      modifies this
      ensures (State(), waiter) == Stop(old(State()), running)
    {
      var proc := serverProc;
      if proc.None? {
        return None;
      }
      if running {
        written := written + [(proc.value, "stop\n")];
      }
      return proc;
    }

    method WaiterFinished(proc: Proc, outcome: WaitOutcome)
      modifies this
      ensures State() == WaiterDone(old(State()), proc, outcome)
    {
      if outcome == Exited {
        if serverProc == Some(proc) {
          serverProc := None;
        }
      }
    }

    method ReaderFinishedAsWritten(proc: Proc, exited: bool)
      modifies this
      ensures State() == ReaderDoneAsWritten(old(State()), proc, exited)
    {
      if exited {
        serverProc := None;
      }
    }

    method ReaderFinished(proc: Proc, exited: bool)
      modifies this
      ensures State() == ReaderDone(old(State()), proc, exited)
    {
      if exited && serverProc == Some(proc) {
        serverProc := None;
      }
    }

    method ForceKillServer()
      modifies this
      ensures State() == ForceKill(old(State()))
    {
      serverProc := None;
    }
  }
}
