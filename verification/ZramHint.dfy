/** The next-free hint compared with a plain scan, while the devices behave the same over time. */
module ZramHint {
  import opened ZramKernel

  ghost predicate Steady(k: Kernel) {
    && (forall t, d, a :: k.refusal(t, d, a) == k.refusal(0, d, a))
    && (forall t :: k.others(t) == k.others(0))
  }

  datatype Fate = Claimable | Skipped | Stops

  /** What happens to a claim of `d`, read off the device alone. */
  function FateOf(k: Kernel, w: World, d: Dev): Fate {
    var read, disksize, reset :=
      k.refusal(0, d, ReadInitstate), k.refusal(0, d, WriteDisksize), k.refusal(0, d, WriteReset);
    if read != 0 then if NotWorthTryingAgain(read) then Stops else Skipped
    else if d in w.mine || d in k.others(0) then Skipped
    else if disksize != 0 then if NotWorthTryingAgain(disksize) then Stops else Skipped
    else if reset != 0 then if NotWorthTryingAgain(reset) then Stops else Skipped
    else Claimable
  }

  /** The first device at or after `id` that is not passed over, or 256. */
  function FirstDecisive(k: Kernel, w: World, id: nat): (r: nat)
    requires id <= 256
    ensures id <= r <= 256
    ensures forall j :: id <= j < r ==> FateOf(k, w, j) == Skipped
    ensures r < 256 ==> FateOf(k, w, r) != Skipped
    decreases 256 - id
  {
    if id == 256 || FateOf(k, w, id) != Skipped then id else FirstDecisive(k, w, id + 1)
  }

  lemma ClaimIsFate(k: Kernel, w: World, d: Dev, sizeB: nat)
    requires Steady(k) && sizeB > 0
    ensures var a := ClaimNew(k, w, d, sizeB);
            && (a.ret == 0 <==> FateOf(k, w, d) == Claimable)
            && (FateOf(k, w, d) == Stops <==> a.ret != 0 && NotWorthTryingAgain(a.world.errno))
            && (forall j :: j != d ==> (j in a.world.mine <==> j in w.mine))
            && (d in a.world.mine && d !in w.mine && a.ret != 0 ==>
                  k.refusal(0, d, ReadInitstate) == 0 && k.refusal(0, d, WriteReset) != 0)
  {
    var a := CheckInitstate(k, w, d);
    if a.ret == 0 {
      var b := DoClaim(k, a.world, d);
      if b.ret == 0 {
        var c := DoReset(k, b.world, d);
        assert k.refusal(b.world.tick, d, WriteReset) == k.refusal(0, d, WriteReset);
        if c.ret == 0 {
          var e := DoCompression(k, c.world, d).world;
          assert k.others(e.tick) == k.others(0) == k.others(w.tick);
        }
      }
    }
  }

  /** A scan succeeds with the first claimable device, stops at the first stopper, or runs out. */
  lemma {:induction false} ScanIsFirst(k: Kernel, w: World, now: World, id: nat, sizeB: nat)
    requires Steady(k) && sizeB > 0 && id <= 256
    requires forall j :: id <= j ==> (j in now.mine <==> j in w.mine)
    ensures var f, r := ScanFrom(k, now, id, sizeB), FirstDecisive(k, w, id);
            && (f.ret == 0 <==> r < 256 && FateOf(k, w, r) == Claimable)
            && (f.ret == 0 ==> f.dev == r)
            && (f.ret == -2 <==> r < 256 && FateOf(k, w, r) == Stops)
            && (f.ret == -1 <==> r == 256)
    decreases 256 - id
  {
    if id < 256 {
      ClaimIsFate(k, now, id, sizeB);
      assert FateOf(k, now, id) == FateOf(k, w, id);
      if FateOf(k, w, id) == Skipped {
        ScanIsFirst(k, w, ClaimNew(k, now, id, sizeB).world, id + 1, sizeB);
      }
    }
  }

  /** Whatever an unsuccessful scan keeps is a device whose reset is refused. */
  lemma {:induction false} ScanKeepsOnlyUnresettable(k: Kernel, w: World, id: nat, sizeB: nat, d: Dev)
    requires Steady(k) && sizeB > 0 && ScanFrom(k, w, id, sizeB).ret != 0
    ensures w.mine <= ScanFrom(k, w, id, sizeB).world.mine
    ensures d in ScanFrom(k, w, id, sizeB).world.mine && d !in w.mine ==>
              k.refusal(0, d, ReadInitstate) == 0 && k.refusal(0, d, WriteReset) != 0
    decreases 256 - id
  {
    if id < 256 {
      ClaimIsFate(k, w, id, sizeB);
      var a := ClaimNew(k, w, id, sizeB);
      assert w.mine <= a.world.mine;
      if !NotWorthTryingAgain(a.world.errno) {
        ScanKeepsOnlyUnresettable(k, a.world, id + 1, sizeB, d);
      }
    }
  }

  lemma {:induction false} ZeroSizeIsNeverFound(k: Kernel, w: World, id: nat)
    ensures ScanFrom(k, w, id, 0).ret != 0
    decreases 256 - id
  {
    if id < 256 {
      ZeroSizeIsNeverFound(k, ClaimNew(k, w, id, 0).world, id + 1);
    }
  }

  /** `t` differs from `w` at most by devices whose fate was not to be claimed. */
  ghost predicate NoWorse(k: Kernel, w: World, t: World) {
    forall d :: (FateOf(k, w, d) == Skipped ==> FateOf(k, t, d) == Skipped)
             && (FateOf(k, w, d) == Claimable ==> FateOf(k, t, d) == Claimable)
  }

  lemma NoWorseAfterScan(k: Kernel, w: World, id: nat, sizeB: nat)
    requires Steady(k) && sizeB > 0 && ScanFrom(k, w, id, sizeB).ret != 0
    ensures NoWorse(k, w, ScanFrom(k, w, id, sizeB).world)
  {
    var t := ScanFrom(k, w, id, sizeB).world;
    forall d
      ensures FateOf(k, w, d) == Skipped ==> FateOf(k, t, d) == Skipped
      ensures FateOf(k, w, d) == Claimable ==> FateOf(k, t, d) == Claimable
    {
      ScanKeepsOnlyUnresettable(k, w, id, sizeB, d);
    }
  }

  lemma FirstDecisiveIfNoWorse(k: Kernel, w: World, t: World)
    requires NoWorse(k, w, t)
    requires FirstDecisive(k, w, 0) < 256 && FateOf(k, w, FirstDecisive(k, w, 0)) == Claimable
    ensures FirstDecisive(k, t, 0) == FirstDecisive(k, w, 0)
  {
    var m, n := FirstDecisive(k, w, 0), FirstDecisive(k, t, 0);
    assert n < m ==> FateOf(k, w, n) == Skipped;
    assert FateOf(k, t, m) == Claimable;
  }

  /** After an unsuccessful hinted scan a plain scan still finds what it would have found before. */
  lemma PlainScanIfNoWorse(k: Kernel, w: World, t: World, sizeB: nat)
    requires Steady(k) && sizeB > 0 && NoWorse(k, w, t) && ScanFrom(k, w, 0, sizeB).ret == 0
    ensures ScanFrom(k, t, 0, sizeB).ret == 0 && ScanFrom(k, t, 0, sizeB).dev == ScanFrom(k, w, 0, sizeB).dev
  {
    ScanIsFirst(k, w, w, 0, sizeB);
    ScanIsFirst(k, t, t, 0, sizeB);
    FirstDecisiveIfNoWorse(k, w, t);
  }

  /** Starting at a hint first never loses a device that a plain scan would have found. */
  lemma HintIsOnlyASpeedUp(k: Kernel, w: World, hint: nat, sizeB: nat)
    requires Steady(k)
    ensures var plain, hinted := ScanFrom(k, w, 0, sizeB), NextFree(k, w, hint, sizeB);
            plain.ret == 0 ==> hinted.ret == 0 && (hinted.dev == plain.dev || (hint > 0 && hinted.dev >= hint))
  {
    if ScanFrom(k, w, 0, sizeB).ret == 0 {
      if sizeB == 0 {
        ZeroSizeIsNeverFound(k, w, 0);
      } else if hint > 0 && ScanFrom(k, w, hint, sizeB).ret != 0 {
        NoWorseAfterScan(k, w, hint, sizeB);
        PlainScanIfNoWorse(k, w, ScanFrom(k, w, hint, sizeB).world, sizeB);
      }
    }
  }

  /** Device 5 is out of order, and nobody's initstate can be read any more after the first access. */
  const FADING := Kernel(
    (t: nat) => {},
    (t: nat, d: Dev, a: Access) => if d == 5 || (a == ReadInitstate && t > 0) then EINVAL else 0)

  /** Devices have to stay as they are for this: with ones that do not, a hint can cost the last chance. */
  lemma FadingDevicesMayBeLost()
    ensures var w := World({}, {}, false, 0, 0);
            !Steady(FADING) && ScanFrom(FADING, w, 0, 1).ret == 0 && NextFree(FADING, w, 5, 1).ret != 0
  {
    var k, w := FADING, World({}, {}, false, 0, 0);
    assert k.refusal(1, 0, ReadInitstate) != k.refusal(0, 0, ReadInitstate);
    var a := CheckInitstate(k, w, 0).world;
    var b := DoClaim(k, a, 0).world;
    var c := DoReset(k, b, 0).world;
    var d := DoCompression(k, c, 0).world;
    assert d.tick == 4 && DoClaim(k, d, 0).ret == 0;
    assert ClaimNew(k, w, 0, 1).ret == 0;
    var t := ClaimNew(k, w, 5, 1).world;
    assert t.errno == EINVAL && t.tick == 1 && ScanFrom(k, w, 5, 1) == Found(-2, 0, t);
    assert ClaimNew(k, t, 0, 1).world.errno == EINVAL && ClaimNew(k, t, 0, 1).ret == -1;
  }
}
