/**
What one process sees of the zram devices. Other processes run between any two of its sysfs
accesses and may hold any devices, except that they leave alone what this process has claimed
(proved in ZramRefinement from the protocol they run). The kernel may also refuse any access.
*/
module ZramKernel {
  import opened ZramSize

  type Dev = nat

  const EBUSY := 16
  const ENOENT := 2
  const EINVAL := 22

  datatype Access = ReadInitstate | WriteDisksize | WriteReset | WriteCompression

  /**
  `others(t)`: the devices other processes hold at the t-th access of this one.
  `refusal(t, d, a)`: the errno with which access number t is refused, or 0.
  */
  datatype Kernel = Kernel(others: nat -> set<Dev>, refusal: (nat, Dev, Access) -> nat)

  /**
  `mine`: devices this process initialised and did not reset; `leaked`: those among them whose
  handle is gone; `foul`: it once reset a device it did not own.
  */
  datatype World = World(mine: set<Dev>, leaked: set<Dev>, foul: bool, tick: nat, errno: nat)

  /** The return code of an operation and the world after it. */
  datatype Answer = Answer(ret: int, world: World)

  predicate Initialised(k: Kernel, w: World, d: Dev) {
    d in w.mine || d in k.others(w.tick)
  }

  function CheckInitstate(k: Kernel, w: World, d: Dev): Answer {
    var e := k.refusal(w.tick, d, ReadInitstate);
    var w' := w.(tick := w.tick + 1);
    if e != 0 then Answer(-1, w'.(errno := e))
    else if Initialised(k, w, d) then Answer(1, w'.(errno := EBUSY))
    else Answer(0, w')
  }

  function DoClaim(k: Kernel, w: World, d: Dev): Answer {
    var e := k.refusal(w.tick, d, WriteDisksize);
    var w' := w.(tick := w.tick + 1);
    if e != 0 then Answer(-1, w'.(errno := e))
    else if Initialised(k, w, d) then Answer(-2, w'.(errno := EBUSY))
    else Answer(0, w'.(errno := 0, mine := w.mine + {d}))
  }

  function DoReset(k: Kernel, w: World, d: Dev): Answer {
    var e := k.refusal(w.tick, d, WriteReset);
    var w' := w.(tick := w.tick + 1);
    if e != 0 then Answer(-1, w'.(errno := e))
    else Answer(0, w'.(errno := 0, mine := w.mine - {d}, foul := w.foul || d !in w.mine))
  }

  function DoCompression(k: Kernel, w: World, d: Dev): Answer {
    var e := k.refusal(w.tick, d, WriteCompression);
    Answer(if e != 0 then -1 else 0, w.(tick := w.tick + 1, errno := e))
  }

  // ---- claiming one device through a new handle ---------------------------------------------

  function ClaimNew(k: Kernel, w: World, d: Dev, sizeB: nat): Answer {
    var a := CheckInitstate(k, w, d);
    if a.ret != 0 || sizeB == 0 then Answer(-1, a.world)
    else
      var b := DoClaim(k, a.world, d);
      if b.ret != 0 then b
      else
        var c := DoReset(k, b.world, d);
        if c.ret != 0 then Answer(-1, c.world.(leaked := c.world.leaked + {d}))
        else DoClaim(k, DoCompression(k, c.world, d).world, d)
  }

  /** The world grew by the claimed device, if any, and by leaks; nothing else changed hands. */
  ghost predicate Grew(w: World, w': World, gained: set<Dev>) {
    && w'.foul == w.foul && w.mine <= w'.mine && w.leaked <= w'.leaked
    && w'.mine == w.mine + gained + (w'.leaked - w.leaked)
    && gained !! w.mine && gained !! (w'.leaked - w.leaked) && w.mine !! (w'.leaked - w.leaked)
  }

  /** Handles that leaked are never forgotten to be ours. */
  ghost predicate Sound(w: World) {
    w.leaked <= w.mine
  }

  /** The claim got as far as its reset, and that was refused. */
  predicate ResetRefused(k: Kernel, w: World, d: Dev, sizeB: nat) {
    && sizeB > 0 && CheckInitstate(k, w, d).ret == 0
    && DoClaim(k, w.(tick := w.tick + 1), d).ret == 0 && k.refusal(w.tick + 2, d, WriteReset) != 0
  }

  /** A claim gains its device or nothing; exactly if the reset inside it is refused, the device leaks. */
  lemma ClaimEffect(k: Kernel, w: World, d: Dev, sizeB: nat)
    requires Sound(w)
    ensures var a := ClaimNew(k, w, d, sizeB);
            && Sound(a.world) && Grew(w, a.world, if a.ret == 0 then {d} else {})
            && a.world.leaked == w.leaked + (if ResetRefused(k, w, d, sizeB) then {d} else {})
            && (ResetRefused(k, w, d, sizeB) ==> a.ret == -1 && d !in w.leaked)
  {
    var a := CheckInitstate(k, w, d);
    if a.ret == 0 && sizeB > 0 {
      var b := DoClaim(k, a.world, d);
      if b.ret == 0 {
        assert b.world.mine - {d} == w.mine;
      }
    }
  }

  // ---- scanning for the next free device -----------------------------------------------------

  /** `dev` is meaningful only if `ret` is 0. */
  datatype Found = Found(ret: int, dev: Dev, world: World)

  predicate NotWorthTryingAgain(errno: nat) {
    errno == ENOENT || errno == EINVAL
  }

  function ScanFrom(k: Kernel, w: World, id: nat, sizeB: nat): (f: Found)
    ensures f.ret in {0, -1, -2}
    ensures f.ret == 0 ==> id <= f.dev < 256
    decreases 256 - id
  {
    if id >= 256 then Found(-1, 0, w)
    else
      var a := ClaimNew(k, w, id, sizeB);
      if a.ret == 0 then Found(0, id, a.world)
      else if NotWorthTryingAgain(a.world.errno) then Found(-2, 0, a.world)
      else ScanFrom(k, a.world, id + 1, sizeB)
  }

  function NextFree(k: Kernel, w: World, hint: nat, sizeB: nat): (f: Found)
    ensures f.ret in {0, -1, -2}
    ensures f.ret == 0 ==> f.dev < 256
  {
    var first := ScanFrom(k, w, hint, sizeB);
    if hint > 0 && first.ret == 0 then first
    else ScanFrom(k, if hint > 0 then first.world else w, 0, sizeB)
  }

  lemma {:induction false} ScanEffect(k: Kernel, w: World, id: nat, sizeB: nat)
    requires Sound(w)
    ensures var f := ScanFrom(k, w, id, sizeB);
            Sound(f.world) && Grew(w, f.world, if f.ret == 0 then {f.dev} else {})
    decreases 256 - id
  {
    if id < 256 {
      var a := ClaimNew(k, w, id, sizeB);
      ClaimEffect(k, w, id, sizeB);
      if a.ret != 0 && !NotWorthTryingAgain(a.world.errno) {
        ScanEffect(k, a.world, id + 1, sizeB);
      }
    }
  }

  lemma NextFreeEffect(k: Kernel, w: World, hint: nat, sizeB: nat)
    requires Sound(w)
    ensures var f := NextFree(k, w, hint, sizeB);
            Sound(f.world) && Grew(w, f.world, if f.ret == 0 then {f.dev} else {})
  {
    ScanEffect(k, w, hint, sizeB);
    ScanEffect(k, w, 0, sizeB);
    ScanEffect(k, ScanFrom(k, w, hint, sizeB).world, 0, sizeB);
  }
}
