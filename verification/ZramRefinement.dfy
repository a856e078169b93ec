/**
The accesses of one process, as ZramKernel describes them, are steps of the protocol that all
processes run: whatever the others do in between, a claim and a release are runs of ZramProtocol,
with the same outcome. That others leave claimed devices alone is proved here, not assumed.
*/
module ZramRefinement {
  import opened ZramKernel
  import P = ZramProtocol

  // ---- what the process owns ------------------------------------------------------------------------

  /** `ours` are the handles of the process; `mine` is exactly what they have claimed. */
  ghost predicate Ours(s: P.State, w: World, ours: set<nat>) {
    && (forall i :: i in ours ==> i < |s.handles|)
    && (forall i :: i in ours && s.handles[i].claimed ==> s.handles[i].dev in w.mine)
    && (forall d :: d in w.mine ==> exists i :: i in ours && s.handles[i].claimed && s.handles[i].dev == d)
  }

  ghost predicate ByOthers(labels: seq<P.Label>, ours: set<nat>) {
    forall j :: 0 <= j < |labels| ==> P.Actor(labels[j]) !in ours
  }

  /** Nothing others do changes our handles or what they have claimed. */
  lemma {:induction false} OthersRun(s: P.State, labels: seq<P.Label>, foreign: set<Dev>, w: World, ours: set<nat>)
    requires P.Inv(s, foreign) && P.IsRun(s, labels) && ByOthers(labels, ours) && Ours(s, w, ours)
    ensures var t := P.Final(s, labels);
            && P.Inv(t, foreign) && Ours(t, w, ours) && w.mine <= t.initialised
            && (forall i :: i in ours ==> t.handles[i] == s.handles[i])
    decreases labels
  {
    if labels == [] {
      OursAreInitialised(s, foreign, w, ours);
    } else {
      var t := P.Step(s, labels[0]);
      P.StepKeepsInv(s, labels[0], foreign);
      OthersStep(s, labels[0], ours);
      assert Ours(t, w, ours);
      OthersRun(t, labels[1..], foreign, w, ours);
    }
  }

  lemma OthersStep(s: P.State, l: P.Label, ours: set<nat>)
    requires P.Enabled(s, l) && P.Actor(l) !in ours && forall i :: i in ours ==> i < |s.handles|
    ensures |s.handles| <= |P.Step(s, l).handles|
    ensures forall i :: i in ours ==> P.Step(s, l).handles[i] == s.handles[i]
  {
  }

  lemma OursAreInitialised(s: P.State, foreign: set<Dev>, w: World, ours: set<nat>)
    requires P.Inv(s, foreign) && Ours(s, w, ours)
    ensures w.mine <= s.initialised
  {
    forall d | d in w.mine
      ensures d in s.initialised
    {
      var i :| i in ours && s.handles[i].claimed && s.handles[i].dev == d;
      assert P.Owner(s.log, s.handles[i].dev) == i;
    }
  }

  // ---- one access -----------------------------------------------------------------------------------

  function Rank(pc: P.Pc): nat {
    match pc
    case Check => 5
    case Claim => 4
    case Reset => 3
    case Compress => 2
    case Reclaim => 1
    case _ => 0
  }

  datatype Turned = Turned(pc: P.Pc, world: World)

  /** The access due at `pc`, and where the claim stands after it. */
  function Turn(k: Kernel, w: World, d: Dev, sizeB: nat, pc: P.Pc): Turned
    requires Rank(pc) > 0
  {
    match pc
    case Check =>
      var a := CheckInitstate(k, w, d);
      Turned(if a.ret == 0 && sizeB > 0 then P.Claim else P.Failed, a.world)
    case Reset =>
      var a := DoReset(k, w, d);
      if a.ret == 0 then Turned(P.Compress, a.world)
      else Turned(P.Stuck, a.world.(leaked := a.world.leaked + {d}))
    case Compress => Turned(P.Reclaim, DoCompression(k, w, d).world)
    case _ =>
      var a := DoClaim(k, w, d);
      Turned(if a.ret != 0 then P.Failed else if pc == P.Claim then P.Reset else P.Held, a.world)
  }

  /** The protocol step that access is. */
  function LabelOf(k: Kernel, w: World, who: nat, d: Dev, sizeB: nat, pc: P.Pc): P.Label
    requires Rank(pc) > 0
  {
    match pc
    case Check => P.ReadInitstate(who, k.refusal(w.tick, d, ReadInitstate) == 0, sizeB == 0)
    case Reset => P.ResetForCompression(who, DoReset(k, w, d).ret == 0)
    case Compress => P.WriteCompression(who)
    case _ => P.WriteDisksize(who, DoClaim(k, w, d).ret == 0)
  }

  function Attempt(k: Kernel, w: World, d: Dev, sizeB: nat, pc: P.Pc): Turned
    decreases Rank(pc)
  {
    if Rank(pc) == 0 then Turned(pc, w)
    else
      var t := Turn(k, w, d, sizeB, pc);
      Attempt(k, t.world, d, sizeB, t.pc)
  }

  /** A claim is its accesses one after the other. */
  lemma ClaimIsAttempt(k: Kernel, w: World, d: Dev, sizeB: nat)
    ensures var a, t := ClaimNew(k, w, d, sizeB), Attempt(k, w, d, sizeB, P.Check);
            && a.world == t.world && (a.ret == 0 <==> t.pc == P.Held) && t.pc in {P.Held, P.Failed, P.Stuck}
            && (t.pc == P.Stuck <==> ResetRefused(k, w, d, sizeB))
  {
    var t1 := Turn(k, w, d, sizeB, P.Check);
    if t1.pc == P.Claim {
      var t2 := Turn(k, t1.world, d, sizeB, P.Claim);
      if t2.pc == P.Reset {
        var t3 := Turn(k, t2.world, d, sizeB, P.Reset);
        if t3.pc == P.Compress {
          var t4 := Turn(k, t3.world, d, sizeB, P.Compress);
          assert Attempt(k, t3.world, d, sizeB, P.Compress) == Attempt(k, t4.world, d, sizeB, P.Reclaim);
        }
        assert Attempt(k, t2.world, d, sizeB, P.Reset) == Attempt(k, t3.world, d, sizeB, t3.pc);
      }
      assert Attempt(k, t1.world, d, sizeB, P.Claim) == Attempt(k, t2.world, d, sizeB, t2.pc);
    }
    assert Attempt(k, w, d, sizeB, P.Check) == Attempt(k, t1.world, d, sizeB, t1.pc);
  }

  /** What the process takes for the devices of others is what is initialised and not its own. */
  ghost predicate Sees(k: Kernel, w: World, s: P.State) {
    k.others(w.tick) == s.initialised - w.mine
  }

  ghost predicate Stands(s: P.State, who: nat, d: Dev, pc: P.Pc) {
    who < |s.handles| && s.handles[who].dev == d && s.handles[who].pc == pc
  }

  /** An access of ours is a step of the protocol, and leads to the same place. */
  lemma OwnStep(k: Kernel, s: P.State, w: World, who: nat, d: Dev, sizeB: nat, pc: P.Pc, ours: set<nat>, foreign: set<Dev>)
    requires P.Inv(s, foreign) && Ours(s, w, ours) && w.mine <= s.initialised && Sees(k, w, s)
    requires who in ours && Stands(s, who, d, pc) && Rank(pc) > 0
    ensures var l, t := LabelOf(k, w, who, d, sizeB, pc), Turn(k, w, d, sizeB, pc);
            && P.Enabled(s, l) && P.Disciplined(s, l)
            && P.Inv(P.Step(s, l), foreign) && Ours(P.Step(s, l), t.world, ours) && Stands(P.Step(s, l), who, d, t.pc)
  {
    var l := LabelOf(k, w, who, d, sizeB, pc);
    OwnMove(k, s, w, who, d, sizeB, pc);
    P.StepKeepsInv(s, l, foreign);
    var s', w' := P.Step(s, l), Turn(k, w, d, sizeB, pc).world;
    assert P.StatusMatchesPc(s.handles[who]) && P.StatusMatchesPc(s'.handles[who]);
    if w'.mine == w.mine {
      OursKept(s, s', w, w', who, ours);
    } else if l.WriteDisksize? {
      OursGained(s, s', w, w', who, ours);
    } else {
      OursLost(s, s', w, w', who, ours, foreign);
    }
  }

  /** The same without what it means for ownership: the step can be taken, and both ends know where the claim stands. */
  lemma OwnMove(k: Kernel, s: P.State, w: World, who: nat, d: Dev, sizeB: nat, pc: P.Pc)
    requires w.mine <= s.initialised && Sees(k, w, s) && Stands(s, who, d, pc) && Rank(pc) > 0
    ensures var l, t := LabelOf(k, w, who, d, sizeB, pc), Turn(k, w, d, sizeB, pc);
            && P.Enabled(s, l) && P.Disciplined(s, l) && Stands(P.Step(s, l), who, d, t.pc)
            && |P.Step(s, l).handles| == |s.handles|
            && (forall i :: 0 <= i < |s.handles| && i != who ==> P.Step(s, l).handles[i] == s.handles[i])
  {
    assert Initialised(k, w, d) <==> d in s.initialised;
  }

  lemma OursKept(s: P.State, s': P.State, w: World, w': World, who: nat, ours: set<nat>)
    requires Ours(s, w, ours) && who in ours && w'.mine == w.mine && |s'.handles| == |s.handles|
    requires forall i :: i in ours ==>
               s'.handles[i].claimed == s.handles[i].claimed && s'.handles[i].dev == s.handles[i].dev
    ensures Ours(s', w', ours)
  {
  }

  lemma OursGained(s: P.State, s': P.State, w: World, w': World, who: nat, ours: set<nat>)
    requires Ours(s, w, ours) && who in ours && |s'.handles| == |s.handles|
    requires w'.mine == w.mine + {s.handles[who].dev} && s'.handles[who].claimed
    requires s'.handles[who].dev == s.handles[who].dev
    requires forall i :: i in ours && i != who ==> s'.handles[i] == s.handles[i]
    ensures Ours(s', w', ours)
  {
    forall d | d in w'.mine
      ensures exists i :: i in ours && s'.handles[i].claimed && s'.handles[i].dev == d
    {
      if d != s.handles[who].dev {
        var i :| i in ours && s.handles[i].claimed && s.handles[i].dev == d;
        assert s'.handles[i].claimed && s'.handles[i].dev == d;
      }
    }
  }

  lemma OursLost(s: P.State, s': P.State, w: World, w': World, who: nat, ours: set<nat>, foreign: set<Dev>)
    requires P.Inv(s, foreign) && Ours(s, w, ours) && who in ours && |s'.handles| == |s.handles|
    requires s.handles[who].claimed && !s'.handles[who].claimed && w'.mine == w.mine - {s.handles[who].dev}
    requires forall i :: i in ours && i != who ==> s'.handles[i] == s.handles[i]
    ensures Ours(s', w', ours)
  {
    forall i | i in ours && s'.handles[i].claimed
      ensures s'.handles[i].dev in w'.mine
    {
      assert P.Owner(s.log, s.handles[i].dev) == i && P.Owner(s.log, s.handles[who].dev) == who;
    }
    forall d | d in w'.mine
      ensures exists i :: i in ours && s'.handles[i].claimed && s'.handles[i].dev == d
    {
      var i :| i in ours && s.handles[i].claimed && s.handles[i].dev == d;
      assert s'.handles[i] == s.handles[i];
    }
  }

  // ---- a whole claim, with others in between ----------------------------------------------------------

  /** What everybody does during a claim; `others(t)` is what the others do before our access number t. */
  function Labels(k: Kernel, others: nat -> seq<P.Label>, w: World, who: nat, d: Dev, sizeB: nat, pc: P.Pc): seq<P.Label>
    decreases Rank(pc)
  {
    if Rank(pc) == 0 then []
    else
      var t := Turn(k, w, d, sizeB, pc);
      others(w.tick) + ([LabelOf(k, w, who, d, sizeB, pc)] + Labels(k, others, t.world, who, d, sizeB, t.pc))
  }

  /** The others run the protocol too, and `k` shows this process the devices they leave it to see. */
  ghost predicate Describes(k: Kernel, others: nat -> seq<P.Label>, s: P.State, w: World, who: nat, d: Dev, sizeB: nat,
                            pc: P.Pc, ours: set<nat>)
    decreases Rank(pc)
  {
    Rank(pc) > 0 ==>
      && P.IsRun(s, others(w.tick)) && ByOthers(others(w.tick), ours)
      && var t, l, next := P.Final(s, others(w.tick)), LabelOf(k, w, who, d, sizeB, pc), Turn(k, w, d, sizeB, pc);
         && Sees(k, w, t)
         && (P.Enabled(t, l) ==> Describes(k, others, P.Step(t, l), next.world, who, d, sizeB, next.pc, ours))
  }

  lemma {:induction false} AttemptIsARun(k: Kernel, others: nat -> seq<P.Label>, s: P.State, w: World, who: nat, d: Dev,
                                        sizeB: nat, pc: P.Pc, ours: set<nat>, foreign: set<Dev>)
    requires P.Inv(s, foreign) && Ours(s, w, ours) && who in ours && Stands(s, who, d, pc)
    requires Describes(k, others, s, w, who, d, sizeB, pc, ours)
    ensures var labels, r := Labels(k, others, w, who, d, sizeB, pc), Attempt(k, w, d, sizeB, pc);
            && P.IsRun(s, labels)
            && var f := P.Final(s, labels); P.Inv(f, foreign) && Ours(f, r.world, ours) && Stands(f, who, d, r.pc)
    decreases Rank(pc)
  {
    if Rank(pc) > 0 {
      var before, l, next := others(w.tick), LabelOf(k, w, who, d, sizeB, pc), Turn(k, w, d, sizeB, pc);
      var rest := Labels(k, others, next.world, who, d, sizeB, next.pc);
      OthersRun(s, before, foreign, w, ours);
      var t := P.Final(s, before);
      OwnStep(k, t, w, who, d, sizeB, pc, ours, foreign);
      AttemptIsARun(k, others, P.Step(t, l), next.world, who, d, sizeB, next.pc, ours, foreign);
      P.RunCons(t, l, rest);
      P.RunAppend(s, before, [l] + rest);
    }
  }

  /**
  A claim through a new handle, with any other processes running the protocol between any two of
  its accesses, is a run of the protocol. It returns 0 exactly if that run leaves the handle Held,
  it leaks its device exactly if the handle is Stuck, and what the process owns afterwards is
  exactly what its handles have claimed.
  */
  lemma ClaimIsARun(k: Kernel, others: nat -> seq<P.Label>, s: P.State, w: World, d: Dev, sizeB: nat, ours: set<nat>,
                    foreign: set<Dev>)
    requires P.Inv(s, foreign) && Ours(s, w, ours)
    requires var who := |s.handles|;
             Describes(k, others, P.Step(s, P.New(d)), w, who, d, sizeB, P.Check, ours + {who})
    ensures var who, a := |s.handles|, ClaimNew(k, w, d, sizeB);
            var labels := [P.New(d)] + Labels(k, others, w, who, d, sizeB, P.Check);
            && P.IsRun(s, labels)
            && var f := P.Final(s, labels);
               && P.Inv(f, foreign) && Ours(f, a.world, ours + {who}) && who < |f.handles|
               && (a.ret == 0 <==> f.handles[who].pc == P.Held)
               && (ResetRefused(k, w, d, sizeB) <==> f.handles[who].pc == P.Stuck)
               && (a.ret == 0 ==> forall i :: 0 <= i < |f.handles| && i != who && f.handles[i].claimed ==> f.handles[i].dev != d)
  {
    var who := |s.handles|;
    var t := P.Step(s, P.New(d));
    P.StepKeepsInv(s, P.New(d), foreign);
    NewIsOurs(s, w, d, ours);
    AttemptIsARun(k, others, t, w, who, d, sizeB, P.Check, ours + {who}, foreign);
    ClaimIsAttempt(k, w, d, sizeB);
    P.RunCons(s, P.New(d), Labels(k, others, w, who, d, sizeB, P.Check));
  }

  /** What is neither ours nor free stays the same through our own steps. */
  lemma RestStays(k: Kernel, s: P.State, w: World, who: nat, d: Dev, sizeB: nat, pc: P.Pc, ours: set<nat>, foreign: set<Dev>)
    requires P.Inv(s, foreign) && Ours(s, w, ours) && w.mine <= s.initialised && Sees(k, w, s)
    requires who in ours && Stands(s, who, d, pc) && Rank(pc) > 0
    requires P.Enabled(s, LabelOf(k, w, who, d, sizeB, pc))
    ensures P.Step(s, LabelOf(k, w, who, d, sizeB, pc)).initialised - Turn(k, w, d, sizeB, pc).world.mine
         == s.initialised - w.mine
  {
    assert P.StatusMatchesPc(s.handles[who]);
  }

  /** The claims above are about something: a process on its own is described by devices that do not change. */
  lemma {:induction false} QuietIsDescribed(refusal: (nat, Dev, Access) -> nat, s: P.State, w: World, who: nat, d: Dev,
                                           sizeB: nat, pc: P.Pc, ours: set<nat>, foreign: set<Dev>)
    requires P.Inv(s, foreign) && Ours(s, w, ours) && who in ours && Stands(s, who, d, pc)
    ensures var rest := s.initialised - w.mine;
            Describes(Kernel((t: nat) => rest, refusal), (t: nat) => [], s, w, who, d, sizeB, pc, ours)
    decreases Rank(pc)
  {
    if Rank(pc) > 0 {
      var rest := s.initialised - w.mine;
      var k := Kernel((t: nat) => rest, refusal);
      OursAreInitialised(s, foreign, w, ours);
      OwnStep(k, s, w, who, d, sizeB, pc, ours, foreign);
      RestStays(k, s, w, who, d, sizeB, pc, ours, foreign);
      var t := Turn(k, w, d, sizeB, pc);
      QuietIsDescribed(refusal, P.Step(s, LabelOf(k, w, who, d, sizeB, pc)), t.world, who, d, sizeB, t.pc, ours, foreign);
    }
  }

  lemma NewIsOurs(s: P.State, w: World, d: Dev, ours: set<nat>)
    requires Ours(s, w, ours)
    ensures Ours(P.Step(s, P.New(d)), w, ours + {|s.handles|})
  {
    var t := P.Step(s, P.New(d));
    forall e | e in w.mine
      ensures exists i :: i in ours + {|s.handles|} && t.handles[i].claimed && t.handles[i].dev == e
    {
      var i :| i in ours && s.handles[i].claimed && s.handles[i].dev == e;
      assert t.handles[i] == s.handles[i];
    }
  }

  // ---- a release ------------------------------------------------------------------------------------

  /**
  A release, with others before it, is a run of the protocol too. Without force it stops before
  the kernel on a handle that is not claimed or is in use, and then nothing changes; otherwise
  the device is given back exactly if the reset is accepted.
  */
  lemma ReleaseIsARun(k: Kernel, before: seq<P.Label>, s: P.State, w: World, who: nat, force: bool, accepted: bool,
                      ours: set<nat>, foreign: set<Dev>)
    requires P.Inv(s, foreign) && Ours(s, w, ours) && who in ours && s.handles[who].pc in {P.Held, P.Released}
    requires force ==> s.handles[who].claimed
    requires P.IsRun(s, before) && ByOthers(before, ours)
    requires accepted == (DoReset(k, w, s.handles[who].dev).ret == 0)
    ensures var h, labels := s.handles[who], before + [P.Release(who, force, accepted)];
            && P.IsRun(s, labels)
            && var stops, f := !force && (!h.claimed || h.inUse), P.Final(s, labels);
               var w' := if stops then w else DoReset(k, w, h.dev).world;
               && P.Inv(f, foreign) && Ours(f, w', ours) && w'.foul == w.foul
               && (stops ==> f == P.Final(s, before))
               && (!stops ==> f.handles[who].pc == (if accepted then P.Released else P.Held))
               && (!stops && accepted ==> h.dev !in f.initialised && h.dev !in w'.mine)
  {
    var h := s.handles[who];
    var l := P.Release(who, force, accepted);
    OthersRun(s, before, foreign, w, ours);
    var t := P.Final(s, before);
    assert P.StatusMatchesPc(t.handles[who]);
    P.StepKeepsInv(t, l, foreign);
    P.RunOne(t, l);
    P.RunAppend(s, before, [l]);
    if force || (h.claimed && !h.inUse) {
      var w' := DoReset(k, w, h.dev).world;
      if accepted {
        OursLost(t, P.Step(t, l), w, w', who, ours, foreign);
      } else {
        OursKept(t, P.Step(t, l), w, w', who, ours);
      }
    }
  }
}
