/**
The boot sequence of init/src/initramfs/main/init.c with the fail latch of hacks.h: every step
asks the outside world, whether a command, a flag file or the operator at the on-error shell,
and a run is driven by its answers. Runs need not end, so all results are about every prefix.
*/
module BootLatch {
  import opened Wrappers

  /** INITRAMFS_FAIL_CONTINUE: the operator wants to go on in spite of the failure. */
  const FAIL_CONTINUE := 250

  datatype Instr =
    | Required(name: string)              // not latched, and a failure ends the boot
    | Latched(name: string)               // IRUN
    | Guarded(flag: string, name: string) // IRUN, if a condition asked for right before holds
    | Optional(name: string)              // a failure is noticed, but does not stop the boot

  /** main_init(), in order. */
  const MAIN_INIT: seq<Instr> := [
    Required("start"),
    Latched("init rundir"),
    Latched("early-env-setup hook"),
    Latched("parse-cmdline hook"),
    Latched("env-setup hook"),
    Optional("load modules early"),
    Latched("devfs-setup hook"),
    Latched("wait for disk devices"),
    Latched("net-setup hook"),
    Optional("net-ifup hook"),
    Latched("post-net hook"),
    Guarded("modules not loaded yet", "load modules"),
    Latched("initramfs mounts"),
    Latched("pre-mount-newroot hook"),
    Latched("early initramfs aux mounts"),
    Guarded("not no-mount-root", "mount / in newroot"),
    Latched("mount-newroot hook"),
    Guarded("neither no-mount-usr nor want-squashed-usr", "mount /usr in newroot"),
    Latched("newroot mounts"),
    Latched("post-mount-newroot hook"),
    Latched("initramfs aux mounts"),
    Latched("subtree-mount hook"),
    Latched("newroot subtree mounts"),
    Latched("populate-newroot hook"),
    Latched("newroot basemounts"),
    Guarded("not no-premount", "newroot fstab premount"),
    Guarded("not no-mount-tmpdir", "newroot mount tmpdir"),
    Guarded("not no-user-tmpdirs", "newroot tmpdir setup"),
    Latched("setup-newroot hook"),
    Latched("finalize-newroot hook"),
    Guarded("have network", "net-ifdown hook"),
    Latched("preswitch shell"),
    Latched("override-init"),
    Latched("switch to newroot")]

  const SWITCH_ROOT: nat := 33

  datatype Event =
    | Called(phase: nat, ret: int)
    | ShellSaid(phase: nat, ret: int)
    | Skipped(phase: nat)

  datatype Mode =
    | Asking  // about to ask for the condition of a guarded phase
    | Calling // about to run the phase's command
    | InShell // the operator is looking at the failure
    | Ended(ret: int)

  datatype State = State(pc: nat, mode: Mode, log: seq<Event>)

  function At(prog: seq<Instr>, pc: nat, log: seq<Event>): State {
    if pc >= |prog| then State(pc, Ended(0), log)
    else State(pc, if prog[pc].Guarded? then Asking else Calling, log)
  }

  /** One answer from outside; `shell` tells whether the on-error shell is enabled. */
  function Step(prog: seq<Instr>, shell: bool, s: State, answer: int): State {
    if s.mode.Ended? || s.pc >= |prog| then s
    else match s.mode
      case Asking =>
        if answer == 0 then At(prog, s.pc + 1, s.log + [Skipped(s.pc)]) else s.(mode := Calling)
      case Calling =>
        var log := s.log + [Called(s.pc, answer)];
        if answer == 0 || prog[s.pc].Optional? then At(prog, s.pc + 1, log)
        else if prog[s.pc].Required? then State(s.pc, Ended(1), log)
        else if shell then State(s.pc, InShell, log)
        else State(s.pc, Ended(-1), log)
      case InShell =>
        var log := s.log + [ShellSaid(s.pc, answer)];
        if answer == 0 then State(s.pc, Calling, log)
        else if answer == FAIL_CONTINUE then At(prog, s.pc + 1, log)
        else State(s.pc, Ended(answer), log)
  }

  /** The state after the answers so far. */
  function Run(prog: seq<Instr>, shell: bool, s: State, answers: seq<int>): State {
    if answers == [] then s
    else Step(prog, shell, Run(prog, shell, s, answers[..|answers| - 1]), answers[|answers| - 1])
  }

  function Boot(prog: seq<Instr>, shell: bool, answers: seq<int>): State {
    Run(prog, shell, At(prog, 0, []), answers)
  }

  // ---- what every run guarantees --------------------------------------------------------------------

  /** The last thing that happened in a phase. */
  function Last(log: seq<Event>, phase: nat): Option<Event> {
    if log == [] then None
    else if log[|log| - 1].phase == phase then Some(log[|log| - 1])
    else Last(log[..|log| - 1], phase)
  }

  /** Whether a phase may be left behind if this was the last thing that happened in it. */
  predicate SettledBy(instr: Instr, e: Event) {
    match instr
    case Required(_) => e.Called? && e.ret == 0
    case Latched(_) => (e.Called? && e.ret == 0) || (e.ShellSaid? && e.ret == FAIL_CONTINUE)
    case Guarded(_, _) => e.Skipped? || (e.Called? && e.ret == 0) || (e.ShellSaid? && e.ret == FAIL_CONTINUE)
    case Optional(_) => e.Called?
  }

  predicate Settled(prog: seq<Instr>, log: seq<Event>, phase: nat)
    requires phase < |prog|
  {
    Last(log, phase).Some? && SettledBy(prog[phase], Last(log, phase).value)
  }

  /** Whenever anything happened in a phase, every earlier phase was settled. */
  ghost predicate InOrder(prog: seq<Instr>, log: seq<Event>) {
    forall i, p :: 0 <= i < |log| && 0 <= p < log[i].phase ==> p < |prog| && Settled(prog, log[..i], p)
  }

  ghost predicate Inv(prog: seq<Instr>, s: State) {
    && InOrder(prog, s.log)
    && s.pc <= |prog|
    && (forall p :: 0 <= p < s.pc ==> Settled(prog, s.log, p))
    && (forall i :: 0 <= i < |s.log| ==> s.log[i].phase <= s.pc && s.log[i].phase < |prog|)
    && (s.mode == Asking ==> s.pc < |prog| && prog[s.pc].Guarded?)
    && (s.mode == InShell ==> s.pc < |prog| && (prog[s.pc].Guarded? || prog[s.pc].Latched?))
  }

  lemma LastAfter(log: seq<Event>, e: Event, phase: nat)
    ensures Last(log + [e], phase) == if e.phase == phase then Some(e) else Last(log, phase)
  {
    assert (log + [e])[..|log|] == log;
  }

  lemma LogKeepsInv(prog: seq<Instr>, s: State, pc: nat, e: Event)
    requires Inv(prog, s) && s.pc < |prog| && e.phase == s.pc
    requires pc == s.pc || (pc == s.pc + 1 && SettledBy(prog[s.pc], e))
    ensures InOrder(prog, s.log + [e])
    ensures forall p :: 0 <= p < pc ==> Settled(prog, s.log + [e], p)
  {
    var t := s.(log := s.log + [e]);
    forall p | 0 <= p < pc
      ensures Settled(prog, t.log, p)
    {
      LastAfter(s.log, e, p);
      if p < s.pc {
        assert Settled(prog, s.log, p);
      }
    }
    forall i, p | 0 <= i < |t.log| && 0 <= p < t.log[i].phase
      ensures p < |prog| && Settled(prog, t.log[..i], p)
    {
      assert t.log[..i] == s.log[..i];
      if i == |s.log| {
        assert s.log[..i] == s.log;
      }
    }
  }

  lemma StepKeepsInv(prog: seq<Instr>, shell: bool, s: State, answer: int)
    requires Inv(prog, s)
    ensures Inv(prog, Step(prog, shell, s, answer))
  {
    var t := Step(prog, shell, s, answer);
    if t.log != s.log {
      LogKeepsInv(prog, s, t.pc, t.log[|s.log|]);
    }
  }

  lemma {:induction false} RunKeepsInv(prog: seq<Instr>, shell: bool, answers: seq<int>)
    ensures Inv(prog, Boot(prog, shell, answers))
  {
    if answers != [] {
      RunKeepsInv(prog, shell, answers[..|answers| - 1]);
      StepKeepsInv(prog, shell, Boot(prog, shell, answers[..|answers| - 1]), answers[|answers| - 1]);
    }
  }

  /**
  In every run, whatever the commands and the operator answer, a phase starts only after every
  earlier latched phase ended with a call that returned 0 or with the operator's 250 (or was
  skipped by its condition).
  */
  lemma PhasesStartInOrder(prog: seq<Instr>, shell: bool, answers: seq<int>, i: nat, p: nat)
    requires i < |Boot(prog, shell, answers).log| && p < Boot(prog, shell, answers).log[i].phase
    ensures p < |prog| && Settled(prog, Boot(prog, shell, answers).log[..i], p)
    ensures var last := Last(Boot(prog, shell, answers).log[..i], p);
            && (prog[p].Required? ==> last == Some(Called(p, 0)))
            && (prog[p].Latched? ==> last in {Some(Called(p, 0)), Some(ShellSaid(p, 250))})
            && (prog[p].Guarded? ==> last in {Some(Called(p, 0)), Some(ShellSaid(p, 250)), Some(Skipped(p))})
  {
    RunKeepsInv(prog, shell, answers);
    LastIsOfPhase(Boot(prog, shell, answers).log[..i], p);
  }

  lemma {:induction false} LastIsOfPhase(log: seq<Event>, phase: nat)
    ensures Last(log, phase).Some? ==> Last(log, phase).value.phase == phase
  {
    if log != [] && log[|log| - 1].phase != phase {
      LastIsOfPhase(log[..|log| - 1], phase);
    }
  }

  // ---- every event is an answer -----------------------------------------------------------------------

  /** The state after the first `n` answers. */
  function After(prog: seq<Instr>, shell: bool, answers: seq<int>, n: nat): State
    requires n <= |answers|
  {
    Boot(prog, shell, answers[..n])
  }

  lemma AfterOneMore(prog: seq<Instr>, shell: bool, answers: seq<int>, n: nat)
    requires n < |answers|
    ensures After(prog, shell, answers, n + 1) == Step(prog, shell, After(prog, shell, answers, n), answers[n])
  {
    RunOneMore(prog, shell, At(prog, 0, []), answers, n);
  }

  /** A guarded phase is skipped exactly if its condition is answered with 0; otherwise its command is run next. */
  lemma GuardDecides(prog: seq<Instr>, shell: bool, answers: seq<int>, n: nat)
    requires n < |answers| && After(prog, shell, answers, n).mode == Asking
    ensures var s, t := After(prog, shell, answers, n), After(prog, shell, answers, n + 1);
            && s.pc < |prog| && prog[s.pc].Guarded?
            && (answers[n] == 0 <==> t.log == s.log + [Skipped(s.pc)])
            && (answers[n] == 0 ==> t.pc == s.pc + 1)
            && (answers[n] != 0 && n + 1 < |answers| ==>
                  After(prog, shell, answers, n + 2).log == s.log + [Called(s.pc, answers[n + 1])])
  {
    RunKeepsInv(prog, shell, answers[..n]);
    AfterOneMore(prog, shell, answers, n);
    assert |After(prog, shell, answers, n).log + [Skipped(After(prog, shell, answers, n).pc)]|
        == |After(prog, shell, answers, n).log| + 1;
    if n + 1 < |answers| {
      AfterOneMore(prog, shell, answers, n + 1);
    }
  }

  /** Answer number `n` is what event `e` reports, given the state in which it came. */
  predicate Reports(s: State, answer: int, e: Event) {
    && e.phase == s.pc
    && match e {
         case Skipped(_) => s.mode == Asking && answer == 0
         case Called(_, ret) => s.mode == Calling && answer == ret
         case ShellSaid(_, ret) => s.mode == InShell && answer == ret
       }
  }

  /** Nothing gets into the log but what was answered at that point of the run. */
  lemma {:induction false} EventsAreAnswers(prog: seq<Instr>, shell: bool, answers: seq<int>, i: nat) returns (n: nat)
    requires i < |Boot(prog, shell, answers).log|
    ensures n < |answers| && After(prog, shell, answers, n).log == Boot(prog, shell, answers).log[..i]
    ensures Reports(After(prog, shell, answers, n), answers[n], Boot(prog, shell, answers).log[i])
  {
    var m := |answers| - 1;
    assert answers[..|answers|] == answers;
    AfterOneMore(prog, shell, answers, m);
    var s := After(prog, shell, answers, m);
    RunKeepsInv(prog, shell, answers[..m]);
    if i < |s.log| {
      n := EventsAreAnswers(prog, shell, answers[..m], i);
      assert answers[..m][..n] == answers[..n];
    } else {
      n := m;
      assert Boot(prog, shell, answers).log[..i] == s.log;
    }
  }

  /**
  What the boot returns: 0 exactly if it got through all phases; 1 if a required one failed; if a
  latched one did, what the operator said last, or -1 if there was no shell to ask.
  */
  lemma {:induction false} EndedRun(prog: seq<Instr>, shell: bool, answers: seq<int>)
    ensures var s := Boot(prog, shell, answers);
            && (s.mode.Ended? ==> (s.mode.ret == 0 <==> s.pc == |prog|))
            && (s.pc == |prog| ==> s.mode.Ended?)
            && (s.mode.Ended? && s.pc < |prog| ==>
                  && s.log != []
                  && if prog[s.pc].Required? then s.mode.ret == 1 && s.log[|s.log| - 1].Called?
                     else if shell then s.log[|s.log| - 1] == ShellSaid(s.pc, s.mode.ret)
                     else s.mode.ret == -1 && s.log[|s.log| - 1].Called?)
  {
    if answers != [] {
      EndedRun(prog, shell, answers[..|answers| - 1]);
      RunKeepsInv(prog, shell, answers[..|answers| - 1]);
    }
  }

  // ---- boots in which nothing fails -------------------------------------------------------------------

  /** From phase `p` on: the conditions are answered as `wanted` says, and every call returns 0. */
  function SmoothAnswers(prog: seq<Instr>, wanted: nat -> bool, p: nat): seq<int>
    requires p <= |prog|
    decreases |prog| - p
  {
    if p == |prog| then []
    else (if !prog[p].Guarded? then [0] else if wanted(p) then [1, 0] else [0]) + SmoothAnswers(prog, wanted, p + 1)
  }

  function SmoothLog(prog: seq<Instr>, wanted: nat -> bool, p: nat): (log: seq<Event>)
    requires p <= |prog|
    ensures |log| == |prog| - p
    ensures forall i :: 0 <= i < |log| ==>
              log[i] == if prog[p + i].Guarded? && !wanted(p + i) then Skipped(p + i) else Called(p + i, 0)
    decreases |prog| - p
  {
    if p == |prog| then []
    else [if prog[p].Guarded? && !wanted(p) then Skipped(p) else Called(p, 0)] + SmoothLog(prog, wanted, p + 1)
  }

  lemma {:induction false} RunTwo(prog: seq<Instr>, shell: bool, s: State, a: seq<int>, b: seq<int>)
    ensures Run(prog, shell, s, a + b) == Run(prog, shell, Run(prog, shell, s, a), b)
    decreases b
  {
    if b == [] {
      assert a + b == a;
    } else {
      var front := b[..|b| - 1];
      assert (a + b)[..|a + b| - 1] == a + front;
      RunTwo(prog, shell, s, a, front);
    }
  }

  lemma SmoothPhase(prog: seq<Instr>, shell: bool, wanted: nat -> bool, p: nat, log: seq<Event>)
    requires p < |prog|
    ensures var here := if !prog[p].Guarded? then [0] else if wanted(p) then [1, 0] else [0];
            Run(prog, shell, At(prog, p, log), here) ==
            At(prog, p + 1, log + [if prog[p].Guarded? && !wanted(p) then Skipped(p) else Called(p, 0)])
  {
    var s := At(prog, p, log);
    assert [0][..0] == [] && [1, 0][..1] == [1] && [1][..0] == [];
    assert Run(prog, shell, s, []) == s;
    if prog[p].Guarded? && wanted(p) {
      assert Run(prog, shell, s, [1]) == Step(prog, shell, s, 1) == s.(mode := Calling);
      assert Run(prog, shell, s, [1, 0]) == Step(prog, shell, s.(mode := Calling), 0);
    } else {
      assert Run(prog, shell, s, [0]) == Step(prog, shell, s, 0);
    }
  }

  lemma {:induction false} SmoothFrom(prog: seq<Instr>, shell: bool, wanted: nat -> bool, p: nat, log: seq<Event>)
    requires p <= |prog|
    ensures Run(prog, shell, At(prog, p, log), SmoothAnswers(prog, wanted, p)) ==
            State(|prog|, Ended(0), log + SmoothLog(prog, wanted, p))
    decreases |prog| - p
  {
    if p == |prog| {
      assert log + [] == log;
    } else {
      var here := if !prog[p].Guarded? then [0] else if wanted(p) then [1, 0] else [0];
      var e := if prog[p].Guarded? && !wanted(p) then Skipped(p) else Called(p, 0);
      RunTwo(prog, shell, At(prog, p, log), here, SmoothAnswers(prog, wanted, p + 1));
      SmoothPhase(prog, shell, wanted, p, log);
      SmoothFrom(prog, shell, wanted, p + 1, log + [e]);
      assert log + [e] + SmoothLog(prog, wanted, p + 1) == log + SmoothLog(prog, wanted, p);
    }
  }

  /**
  If no call fails, every phase happens once, in order: it is called, unless it is guarded and its
  condition does not hold, and then it is skipped. The boot ends with 0, with or without a shell.
  */
  lemma SmoothBoot(prog: seq<Instr>, shell: bool, wanted: nat -> bool, p: nat)
    requires p < |prog|
    ensures var s := Boot(prog, shell, SmoothAnswers(prog, wanted, 0));
            && s.mode == Ended(0) && |s.log| == |prog|
            && s.log[p] == if prog[p].Guarded? && !wanted(p) then Skipped(p) else Called(p, 0)
  {
    SmoothFrom(prog, shell, wanted, 0, []);
  }

  // ---- without an on-error shell ----------------------------------------------------------------------

  /** A call that stops the boot unless the operator steps in. */
  predicate Fails(prog: seq<Instr>, e: Event) {
    e.Called? && e.phase < |prog| && e.ret != 0 && !prog[e.phase].Optional?
  }

  ghost predicate NoFailureYet(prog: seq<Instr>, log: seq<Event>) {
    forall i :: 0 <= i < |log| ==> !Fails(prog, log[i])
  }

  lemma {:induction false} FirstFailureIsLast(prog: seq<Instr>, answers: seq<int>)
    ensures var s := Boot(prog, false, answers);
            && s.mode != InShell
            && (s.mode.Ended? && s.pc < |prog| ==>
                  s.log != [] && Fails(prog, s.log[|s.log| - 1]) && NoFailureYet(prog, s.log[..|s.log| - 1]))
            && (!s.mode.Ended? || s.pc >= |prog| ==> NoFailureYet(prog, s.log))
            && (s.pc >= |prog| ==> s.mode.Ended?)
  {
    if answers != [] {
      FirstFailureIsLast(prog, answers[..|answers| - 1]);
      var s := Boot(prog, false, answers[..|answers| - 1]);
      var t := Step(prog, false, s, answers[|answers| - 1]);
      if t.log != s.log {
        assert t.log[..|t.log| - 1] == s.log;
      }
    }
  }

  /**
  With the on-error shell disabled the first failing phase is the last thing that ever happens:
  nothing follows it in the log, in particular no attempt to switch root.
  */
  lemma FailureEndsTheBoot(prog: seq<Instr>, answers: seq<int>, i: nat)
    requires var log := Boot(prog, false, answers).log; i < |log| && Fails(prog, log[i])
    ensures i == |Boot(prog, false, answers).log| - 1
    ensures Boot(prog, false, answers).mode.Ended?
  {
    FirstFailureIsLast(prog, answers);
    var s := Boot(prog, false, answers);
    assert s.mode.Ended? && s.pc < |prog|;
    assert NoFailureYet(prog, s.log[..|s.log| - 1]);
  }

  /** If the real init is ever started, every phase of main_init() before it was settled. */
  lemma SwitchRootComesLast(shell: bool, answers: seq<int>, i: nat, p: nat)
    requires i < |Boot(MAIN_INIT, shell, answers).log|
    requires Boot(MAIN_INIT, shell, answers).log[i].phase == SWITCH_ROOT && p < SWITCH_ROOT
    ensures MAIN_INIT[SWITCH_ROOT] == Latched("switch to newroot") && |MAIN_INIT| == SWITCH_ROOT + 1
    ensures Settled(MAIN_INIT, Boot(MAIN_INIT, shell, answers).log[..i], p)
  {
    PhasesStartInOrder(MAIN_INIT, shell, answers, i, p);
  }

  /** Phases of main_init() that results turn on. */
  lemma MainInitPhases()
    ensures |MAIN_INIT| == 34 && MAIN_INIT[0] == Required("start")
    ensures MAIN_INIT[15] == Guarded("not no-mount-root", "mount / in newroot")
    ensures MAIN_INIT[17] == Guarded("neither no-mount-usr nor want-squashed-usr", "mount /usr in newroot")
    ensures MAIN_INIT[25] == Guarded("not no-premount", "newroot fstab premount")
    ensures MAIN_INIT[33] == Latched("switch to newroot")
    ensures forall p :: 0 <= p < 34 && MAIN_INIT[p].Optional? ==> p in {5, 9}
  {
  }

  /** By whatever phase after it anything happens, "/" was mounted, or the operator went on, or it was not wanted. */
  lemma RootIsMountedFirst(shell: bool, answers: seq<int>, i: nat) returns (asked: nat)
    requires i < |Boot(MAIN_INIT, shell, answers).log| && Boot(MAIN_INIT, shell, answers).log[i].phase > 15
    ensures MAIN_INIT[15].name == "mount / in newroot"
    ensures var last := Last(Boot(MAIN_INIT, shell, answers).log[..i], 15);
            || last == Some(Called(15, 0)) || last == Some(ShellSaid(15, 250))
            || (last == Some(Skipped(15)) && asked < |answers| && answers[asked] == 0
                && After(MAIN_INIT, shell, answers, asked).pc == 15
                && After(MAIN_INIT, shell, answers, asked).mode == Asking)
  {
    MainInitPhases();
    PhasesStartInOrder(MAIN_INIT, shell, answers, i, 15);
    var log := Boot(MAIN_INIT, shell, answers).log;
    asked := 0;
    if Last(log[..i], 15) == Some(Skipped(15)) {
      var k := LastIsThere(log[..i], 15);
      asked := EventsAreAnswers(MAIN_INIT, shell, answers, k);
    }
  }

  lemma {:induction false} LastIsThere(log: seq<Event>, phase: nat) returns (k: nat)
    requires Last(log, phase).Some?
    ensures k < |log| && log[k] == Last(log, phase).value
  {
    if log[|log| - 1].phase == phase {
      k := |log| - 1;
    } else {
      k := LastIsThere(log[..|log| - 1], phase);
    }
  }

  // ---- the latch as written -----------------------------------------------------------------------------

  lemma RunOneMore(prog: seq<Instr>, shell: bool, s: State, answers: seq<int>, n: nat)
    requires n < |answers|
    ensures Run(prog, shell, s, answers[..n + 1]) == Step(prog, shell, Run(prog, shell, s, answers[..n]), answers[n])
  {
    assert answers[..n + 1][..n] == answers[..n];
  }

  /**
  _INITRAMFS_FAIL_LATCH for one phase, taking answers from the front of the list until the phase
  is over or the list is used up.
  */
  method FailLatch(prog: seq<Instr>, shell: bool, start: State, answers: seq<int>) returns (s: State, used: nat)
    requires start.pc < |prog| && prog[start.pc].Latched? && start.mode == Calling
    ensures used <= |answers| && s == Run(prog, shell, start, answers[..used])
    ensures used == |answers| || s.mode.Ended? || s == At(prog, start.pc + 1, s.log)
  {
    s, used := start, 0;
    if answers == [] {
      return;
    }
    RunOneMore(prog, shell, start, answers, 0);
    assert Run(prog, shell, start, answers[..0]) == start;
    var latchret := answers[0];
    s, used := Step(prog, shell, s, latchret), 1;
    while latchret != 0
      invariant 1 <= used <= |answers| && s == Run(prog, shell, start, answers[..used])
      invariant latchret == 0 ==> s == At(prog, start.pc + 1, s.log)
      invariant latchret != 0 ==> s.pc == start.pc && s.mode == if shell then InShell else Ended(-1)
      decreases |answers| - used
    {
      if !shell {
        return;
      }
      if used == |answers| {
        return;
      }
      RunOneMore(prog, shell, start, answers, used);
      latchret := answers[used];
      s, used := Step(prog, shell, s, latchret), used + 1;
      if latchret == 0 {
      } else if latchret == FAIL_CONTINUE {
        break;
      } else {
        return;
      }
      if used == |answers| {
        return;
      }
      RunOneMore(prog, shell, start, answers, used);
      latchret := answers[used];
      s, used := Step(prog, shell, s, latchret), used + 1;
    }
  }

  // ---- critical hooks -------------------------------------------------------------------------------------

  /**
  _initramfs_do_run_hook_catch_fail(): the answers are those of the hook and, in between, of the
  on-error shell. None if they run out first.
  */
  method RunHookCatchFail(shell: bool, answers: seq<int>) returns (r: Option<int>, used: nat)
    ensures used <= |answers|
    ensures forall i :: 0 <= i < used - 1 ==> if i % 2 == 0 then answers[i] > 0 else answers[i] == 0
    ensures r.None? ==> used == |answers|
    ensures r.Some? ==> used > 0
    ensures r.Some? && used % 2 == 1 && answers[used - 1] <= 0 ==> r.value == answers[used - 1]
    ensures r.Some? && used % 2 == 1 && answers[used - 1] > 0 ==> !shell && r.value == -1
    ensures r.Some? && used % 2 == 0 ==>
              shell && answers[used - 1] != 0 &&
              r.value == if answers[used - 1] == FAIL_CONTINUE then 0 else answers[used - 1]
  {
    used := 0;
    while used < |answers|
      invariant used % 2 == 0 && used <= |answers|
      invariant forall i :: 0 <= i < used ==> if i % 2 == 0 then answers[i] > 0 else answers[i] == 0
      decreases |answers| - used
    {
      var retcode := answers[used];
      used := used + 1;
      if retcode <= 0 {
        return Some(retcode), used;
      }
      if !shell {
        return Some(-1), used;
      }
      if used == |answers| {
        return None, used;
      }
      var shret := answers[used];
      used := used + 1;
      if shret == FAIL_CONTINUE {
        return Some(0), used;
      } else if shret != 0 {
        return Some(shret), used;
      }
    }
    return None, used;
  }
}
