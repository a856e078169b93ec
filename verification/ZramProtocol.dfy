/**
The zram claim protocol of init/src/zram/zallocate.c, run by any number of processes at once.

Every sysfs access is one atomic step; steps of different claim attempts interleave freely.
The kernel accepts a disksize write only on an uninitialised device, and an accepted reset
makes a device uninitialised; every access may also be refused for reasons of its own.
*/
module ZramProtocol {
  type Dev = nat

  /** Where a claim attempt stands in zram_claim_device() and after it. */
  datatype Pc =
    | Check    // about to read initstate
    | Claim    // about to write disksize for the first time
    | Reset    // about to reset the device in order to set its compression
    | Compress // about to write comp_algorithm
    | Reclaim  // about to write disksize again
    | Held     // the claim returned 0
    | Failed   // the claim returned non-zero, the struct is freed
    | Stuck    // as Failed, because the reset was refused
    | Released // a release returned 0

  /** One zram_dev_info; `claimed` stands for its CLAIMED and INITIALIZED bits. */
  datatype Handle = Handle(dev: Dev, pc: Pc, claimed: bool, inUse: bool)

  /** An accepted sysfs write, by the handle with that number. */
  datatype Entry = Wrote(who: nat, dev: Dev) | Cleared(who: nat, dev: Dev)

  datatype State = State(handles: seq<Handle>, initialised: set<Dev>, log: seq<Entry>)

  datatype Label =
    | New(dev: Dev)
    | ReadInitstate(who: nat, readable: bool, sizeIsZero: bool)
    | WriteDisksize(who: nat, accepted: bool)
    | ResetForCompression(who: nat, accepted: bool)
    | WriteCompression(who: nat)
    | SetInUse(who: nat, inUse: bool)
    | Release(who: nat, force: bool, accepted: bool)

  /** A release that gets past the checks of zram_release_device() and writes to `reset`. */
  predicate ReachesKernel(h: Handle, force: bool) {
    force || (h.claimed && !h.inUse)
  }

  predicate Enabled(s: State, l: Label) {
    match l
    case New(_) => true
    case ReadInitstate(who, _, _) => who < |s.handles| && s.handles[who].pc == Check
    case WriteDisksize(who, accepted) =>
      && who < |s.handles| && s.handles[who].pc in {Claim, Reclaim}
      && (accepted ==> s.handles[who].dev !in s.initialised)
    case ResetForCompression(who, _) => who < |s.handles| && s.handles[who].pc == Reset
    case WriteCompression(who) => who < |s.handles| && s.handles[who].pc == Compress
    case SetInUse(who, _) => who < |s.handles| && s.handles[who].pc == Held
    case Release(who, _, _) => who < |s.handles| && s.handles[who].pc in {Held, Released}
  }

  function With(s: State, who: nat, h: Handle): State
    requires who < |s.handles|
  {
    s.(handles := s.handles[who := h])
  }

  function Cleared1(s: State, who: nat, pc: Pc): State
    requires who < |s.handles|
  {
    var h := s.handles[who];
    State(s.handles[who := h.(pc := pc, claimed := false)], s.initialised - {h.dev}, s.log + [Cleared(who, h.dev)])
  }

  function Step(s: State, l: Label): State
    requires Enabled(s, l)
  {
    match l
    case New(dev) => s.(handles := s.handles + [Handle(dev, Check, false, false)])
    case ReadInitstate(who, readable, sizeIsZero) =>
      var h := s.handles[who];
      With(s, who, h.(pc := if readable && h.dev !in s.initialised && !sizeIsZero then Claim else Failed))
    case WriteDisksize(who, accepted) =>
      var h := s.handles[who];
      if !accepted then With(s, who, h.(pc := Failed))
      else State(s.handles[who := h.(pc := if h.pc == Claim then Reset else Held, claimed := true)],
                 s.initialised + {h.dev}, s.log + [Wrote(who, h.dev)])
    case ResetForCompression(who, accepted) =>
      if accepted then Cleared1(s, who, Compress) else With(s, who, s.handles[who].(pc := Stuck))
    case WriteCompression(who) => With(s, who, s.handles[who].(pc := Reclaim))
    case SetInUse(who, inUse) => With(s, who, s.handles[who].(inUse := inUse))
    case Release(who, force, accepted) =>
      if ReachesKernel(s.handles[who], force) && accepted then Cleared1(s, who, Released) else s
  }

  /** Callers force a release only on a device they hold, as disk.c and autoswap.c do. */
  predicate Disciplined(s: State, l: Label) {
    l.Release? && l.who < |s.handles| && l.force ==> s.handles[l.who].claimed
  }

  predicate IsRun(s: State, labels: seq<Label>)
    decreases labels
  {
    labels == [] || (Enabled(s, labels[0]) && Disciplined(s, labels[0]) && IsRun(Step(s, labels[0]), labels[1..]))
  }

  function Final(s: State, labels: seq<Label>): State
    requires IsRun(s, labels)
    decreases labels
  {
    if labels == [] then s else Final(Step(s, labels[0]), labels[1..])
  }

  // ---- the invariant ----------------------------------------------------------------------

  ghost predicate StatusMatchesPc(h: Handle) {
    h.claimed <==> h.pc in {Reset, Held, Stuck}
  }

  /** Who wrote disksize last without a reset after it: the owner of `dev`, if it has one. */
  function Owner(log: seq<Entry>, dev: Dev): (who: int)
    ensures who >= -1
  {
    if log == [] then -1 else
    match log[|log| - 1]
    case Wrote(w, d) => if d == dev then w else Owner(log[..|log| - 1], dev)
    case Cleared(_, d) => if d == dev then -1 else Owner(log[..|log| - 1], dev)
  }

  /** `foreign` are the devices that were initialised before anybody ran the protocol. */
  ghost predicate Inv(s: State, foreign: set<Dev>) {
    && (forall i :: 0 <= i < |s.handles| ==> StatusMatchesPc(s.handles[i]))
    && (forall i :: 0 <= i < |s.handles| ==> (s.handles[i].claimed <==> Owner(s.log, s.handles[i].dev) == i))
    && (forall d :: d in s.initialised <==> d in foreign || Owner(s.log, d) != -1)
    && (forall d :: d in foreign ==> Owner(s.log, d) == -1)
    && (forall d :: Owner(s.log, d) < |s.handles|)
    && (forall d :: Owner(s.log, d) >= 0 ==> s.handles[Owner(s.log, d)].dev == d)
  }

  ghost predicate Initial(s: State, foreign: set<Dev>) {
    s == State([], foreign, [])
  }

  lemma OwnerAfter(log: seq<Entry>, e: Entry, dev: Dev)
    ensures Owner(log + [e], dev) ==
            if e.dev != dev then Owner(log, dev) else if e.Wrote? then e.who else -1
  {
    assert (log + [e])[..|log|] == log;
  }

  lemma OwnerAfterAll(log: seq<Entry>, e: Entry)
    ensures forall dev ::
              Owner(log + [e], dev) == if e.dev != dev then Owner(log, dev) else if e.Wrote? then e.who else -1
  {
    forall dev {
      OwnerAfter(log, e, dev);
    }
  }

  /** Steps the kernel does not see: new handles own nothing, old ones keep device and status. */
  lemma QuietStepKeepsInv(s: State, t: State, foreign: set<Dev>)
    requires Inv(s, foreign) && t.log == s.log && t.initialised == s.initialised && |s.handles| <= |t.handles|
    requires forall i :: 0 <= i < |t.handles| ==> StatusMatchesPc(t.handles[i])
    requires forall i :: 0 <= i < |s.handles| ==>
               t.handles[i].dev == s.handles[i].dev && t.handles[i].claimed == s.handles[i].claimed
    requires forall i :: |s.handles| <= i < |t.handles| ==> !t.handles[i].claimed
    ensures Inv(t, foreign)
  {
  }

  lemma WriteKeepsInv(s: State, who: nat, h: Handle, foreign: set<Dev>)
    requires Inv(s, foreign) && who < |s.handles| && h.dev == s.handles[who].dev && h.dev !in s.initialised
    requires h.claimed && StatusMatchesPc(h)
    ensures Inv(State(s.handles[who := h], s.initialised + {h.dev}, s.log + [Wrote(who, h.dev)]), foreign)
  {
    OwnerAfterAll(s.log, Wrote(who, h.dev));
  }

  lemma ResetKeepsInv(s: State, who: nat, h: Handle, foreign: set<Dev>)
    requires Inv(s, foreign) && who < |s.handles| && h.dev == s.handles[who].dev && s.handles[who].claimed
    requires !h.claimed && StatusMatchesPc(h)
    ensures Inv(State(s.handles[who := h], s.initialised - {h.dev}, s.log + [Cleared(who, h.dev)]), foreign)
  {
    OwnerAfterAll(s.log, Cleared(who, h.dev));
  }

  lemma StepKeepsInv(s: State, l: Label, foreign: set<Dev>)
    requires Inv(s, foreign) && Enabled(s, l) && Disciplined(s, l)
    ensures Inv(Step(s, l), foreign)
  {
    var t := Step(s, l);
    if t.log == s.log {
      QuietStepKeepsInv(s, t, foreign);
    } else if l.WriteDisksize? {
      WriteKeepsInv(s, l.who, t.handles[l.who], foreign);
    } else {
      ResetKeepsInv(s, l.who, t.handles[l.who], foreign);
    }
  }

  lemma {:induction false} RunKeepsInv(s: State, labels: seq<Label>, foreign: set<Dev>)
    requires Inv(s, foreign) && IsRun(s, labels)
    ensures Inv(Final(s, labels), foreign)
    decreases labels
  {
    if labels != [] {
      StepKeepsInv(s, labels[0], foreign);
      RunKeepsInv(Step(s, labels[0]), labels[1..], foreign);
    }
  }

  // ---- what every run guarantees ----------------------------------------------------------

  /**
  No device is ever held through two claims that returned 0 and were not released, nor through
  one such claim and one still in the middle of its claim-reset-reclaim dance.
  */
  lemma MutualExclusion(s: State, labels: seq<Label>, foreign: set<Dev>, i: nat, j: nat)
    requires Initial(s, foreign) && IsRun(s, labels)
    requires i < j < |Final(s, labels).handles|
    ensures var h := Final(s, labels).handles;
            h[i].dev == h[j].dev ==> !(h[i].pc in {Held, Reset, Stuck} && h[j].pc in {Held, Reset, Stuck})
  {
    RunKeepsInv(s, labels, foreign);
  }

  /** Whatever is held is initialised, and was free before anybody ran the protocol. */
  lemma HeldDevices(s: State, labels: seq<Label>, foreign: set<Dev>, i: nat)
    requires Initial(s, foreign) && IsRun(s, labels) && i < |Final(s, labels).handles|
    ensures var h := Final(s, labels).handles[i];
            h.pc in {Held, Reset, Stuck} ==> h.dev in Final(s, labels).initialised && h.dev !in foreign
  {
    RunKeepsInv(s, labels, foreign);
    assert StatusMatchesPc(Final(s, labels).handles[i]);
  }

  /** A device's accepted writes alternate, and whoever resets it is the one that wrote disksize last. */
  ghost predicate ResetsByOwner(log: seq<Entry>) {
    forall k :: 0 <= k < |log| ==>
      if log[k].Wrote? then Owner(log[..k], log[k].dev) == -1
      else Owner(log[..k], log[k].dev) == log[k].who
  }

  lemma {:induction false} RunResetsByOwner(s: State, labels: seq<Label>, foreign: set<Dev>)
    requires Inv(s, foreign) && ResetsByOwner(s.log) && IsRun(s, labels)
    ensures ResetsByOwner(Final(s, labels).log)
    ensures s.log <= Final(s, labels).log
    decreases labels
  {
    if labels != [] {
      var t := Step(s, labels[0]);
      StepKeepsInv(s, labels[0], foreign);
      forall k | 0 <= k < |t.log|
        ensures if t.log[k].Wrote? then Owner(t.log[..k], t.log[k].dev) == -1
                else Owner(t.log[..k], t.log[k].dev) == t.log[k].who
      {
        assert t.log[..k] == s.log[..k];
        assert s.log[..|s.log|] == s.log;
      }
      RunResetsByOwner(t, labels[1..], foreign);
    }
  }

  /** Over a whole run: every reset is issued by the current owner, and no foreign device is touched. */
  lemma EveryResetIsByTheOwner(s: State, labels: seq<Label>, foreign: set<Dev>)
    requires Initial(s, foreign) && IsRun(s, labels)
    ensures ResetsByOwner(Final(s, labels).log)
    ensures forall d :: d in foreign ==> d in Final(s, labels).initialised
  {
    RunResetsByOwner(s, labels, foreign);
    RunKeepsInv(s, labels, foreign);
  }

  /**
  A failed or finished claim leaves nothing behind; the only leak is a refused reset. The
  devices in use are exactly the foreign ones and those some handle still owns.
  */
  lemma NothingLeaks(s: State, labels: seq<Label>, foreign: set<Dev>)
    requires Initial(s, foreign) && IsRun(s, labels)
    ensures var t := Final(s, labels);
            forall d :: d in t.initialised <==>
              d in foreign || exists i :: 0 <= i < |t.handles| && t.handles[i].dev == d && t.handles[i].pc in {Reset, Held, Stuck}
  {
    RunKeepsInv(s, labels, foreign);
    var t := Final(s, labels);
    forall d | d in t.initialised && d !in foreign
      ensures exists i :: 0 <= i < |t.handles| && t.handles[i].dev == d && t.handles[i].pc in {Reset, Held, Stuck}
    {
      assert StatusMatchesPc(t.handles[Owner(t.log, d)]);
    }
  }

  function Actor(l: Label): int {
    if l.New? then -1 else l.who
  }

  /** Whatever others do, a claimed device stays initialised: what one process may rely on. */
  lemma OthersKeepHandsOff(s: State, l: Label, foreign: set<Dev>, i: nat)
    requires Inv(s, foreign) && Enabled(s, l) && Disciplined(s, l)
    requires i < |s.handles| && s.handles[i].claimed && Actor(l) != i
    ensures Step(s, l).handles[i] == s.handles[i] && s.handles[i].dev in Step(s, l).initialised
  {
  }

  // ---- forced releases ---------------------------------------------------------------------

  /**
  A release resets a device its caller does not own exactly if it is forced on a handle whose
  status bits are clear; any such step is one the discipline above rules out.
  */
  lemma ReleaseHitsOwnerOnly(s: State, who: nat, force: bool, foreign: set<Dev>)
    requires Inv(s, foreign) && Enabled(s, Release(who, force, true))
    ensures (Step(s, Release(who, force, true)) == s || Owner(s.log, s.handles[who].dev) == who)
            <==> !(force && !s.handles[who].claimed)
  {
    if force && !s.handles[who].claimed {
      assert |Step(s, Release(who, force, true)).log| == |s.log| + 1;
    }
  }

  lemma {:induction false} RunAppend(s: State, a: seq<Label>, b: seq<Label>)
    ensures IsRun(s, a + b) <==> IsRun(s, a) && IsRun(Final(s, a), b)
    ensures IsRun(s, a + b) ==> Final(s, a + b) == Final(Final(s, a), b)
    decreases a
  {
    if a == [] {
      assert a + b == b;
    } else {
      assert (a + b)[1..] == a[1..] + b;
      if Enabled(s, a[0]) {
        RunAppend(Step(s, a[0]), a[1..], b);
      }
    }
  }

  lemma RunOne(s: State, l: Label)
    ensures IsRun(s, [l]) <==> Enabled(s, l) && Disciplined(s, l)
    ensures IsRun(s, [l]) ==> Final(s, [l]) == Step(s, l)
  {
    assert [l][1..] == [];
  }

  lemma RunCons(s: State, l: Label, rest: seq<Label>)
    ensures IsRun(s, [l] + rest) <==> Enabled(s, l) && Disciplined(s, l) && IsRun(Step(s, l), rest)
    ensures IsRun(s, [l] + rest) ==> Final(s, [l] + rest) == Final(Step(s, l), rest)
  {
    assert ([l] + rest)[1..] == rest;
  }

  /** A claim through a new handle in which nothing is refused. */
  function SmoothClaim(who: nat, dev: Dev): seq<Label> {
    [New(dev)] + ([ReadInitstate(who, true, false)] + ([WriteDisksize(who, true)] +
      ([ResetForCompression(who, true)] + ([WriteCompression(who)] + [WriteDisksize(who, true)]))))
  }

  lemma SmoothClaimSucceeds(s: State, dev: Dev)
    requires dev !in s.initialised
    ensures var who := |s.handles|;
            && IsRun(s, SmoothClaim(who, dev))
            && Final(s, SmoothClaim(who, dev)) ==
               State(s.handles + [Handle(dev, Held, true, false)], s.initialised + {dev},
                     s.log + [Wrote(who, dev), Cleared(who, dev), Wrote(who, dev)])
  {
    var who := |s.handles|;
    var s1 := Step(s, New(dev));
    var s2 := Step(s1, ReadInitstate(who, true, false));
    var s3 := Step(s2, WriteDisksize(who, true));
    var s4 := Step(s3, ResetForCompression(who, true));
    var s5 := Step(s4, WriteCompression(who));
    var s6 := Step(s5, WriteDisksize(who, true));
    RunOne(s5, WriteDisksize(who, true));
    RunCons(s4, WriteCompression(who), [WriteDisksize(who, true)]);
    var r4 := [WriteCompression(who)] + [WriteDisksize(who, true)];
    RunCons(s3, ResetForCompression(who, true), r4);
    var r3 := [ResetForCompression(who, true)] + r4;
    RunCons(s2, WriteDisksize(who, true), r3);
    var r2 := [WriteDisksize(who, true)] + r3;
    RunCons(s1, ReadInitstate(who, true, false), r2);
    RunCons(s, New(dev), [ReadInitstate(who, true, false)] + r2);
    assert s6.handles == s.handles + [Handle(dev, Held, true, false)];
    assert s6.initialised == s.initialised + {dev};
    assert s6.log == s.log + [Wrote(who, dev), Cleared(who, dev), Wrote(who, dev)];
  }

  /** Claim and release, then somebody else's claim, all as the discipline wants it. */
  function BeforeTheft(dev: Dev): seq<Label> {
    SmoothClaim(0, dev) + ([Release(0, false, true)] + SmoothClaim(1, dev))
  }

  /**
  Forcing a second release on one handle takes the device away from its holder: a disciplined
  run from the very beginning, one forced release, and one more claim, after which two claims
  that returned 0 hold the same device.
  */
  lemma ForcedSecondReleaseSteals(dev: Dev)
    ensures var s, theft := State([], {}, []), Release(0, true, true);
            && Initial(s, {}) && IsRun(s, BeforeTheft(dev))
            && var t := Final(s, BeforeTheft(dev));
               && Enabled(t, theft) && !Disciplined(t, theft)
               && IsRun(Step(t, theft), SmoothClaim(2, dev))
               && var h := Final(Step(t, theft), SmoothClaim(2, dev)).handles;
                  |h| == 3 && h[1].pc == Held == h[2].pc && h[1].dev == dev == h[2].dev
  {
    var s, theft := State([], {}, []), Release(0, true, true);
    SmoothClaimSucceeds(s, dev);
    var s1 := Final(s, SmoothClaim(0, dev));
    var s2 := Step(s1, Release(0, false, true));
    assert s1.handles == [Handle(dev, Held, true, false)];
    SmoothClaimSucceeds(s2, dev);
    RunCons(s1, Release(0, false, true), SmoothClaim(1, dev));
    RunAppend(s, SmoothClaim(0, dev), [Release(0, false, true)] + SmoothClaim(1, dev));
    var t := Final(s, BeforeTheft(dev));
    assert t.handles == [Handle(dev, Released, false, false), Handle(dev, Held, true, false)];
    SmoothClaimSucceeds(Step(t, theft), dev);
  }
}
