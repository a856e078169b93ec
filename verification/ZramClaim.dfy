/** init/src/zram/zallocate.c as written: structs updated in place, search and rollback loops. */
module ZramClaim {
  import opened ZramSize
  import opened ZramKernel
  import opened ZramBatch

  datatype StatusBit = StatusInitialized | StatusClaimed | StatusInUse

  const CLAIMED := {StatusClaimed, StatusInitialized}

  class Device {
    const identifier: Dev
    var sizeM: nat
    var status: set<StatusBit>
    var compressionKnown: bool

    constructor (identifier: Dev)
      ensures this.identifier == identifier && sizeM == 0 && status == {} && compressionKnown
    {
      this.identifier, sizeM, status, compressionKnown := identifier, 0, {}, true;
    }
  }

  class Zram {
    const kernel: Kernel
    const pageSize: nat
    var world: World
    var nextFreeIdentifier: nat

    ghost predicate Valid()
      reads this
    {
      pageSize < SIZE_T && nextFreeIdentifier < 256
    }

    function Bytes(sizeM: nat): nat
      requires pageSize < SIZE_T
    {
      SizeInBytes(sizeM, pageSize)
    }

    constructor (kernel: Kernel, pageSize: nat, hint: nat)
      requires pageSize < SIZE_T && hint < 256
      ensures Valid() && this.kernel == kernel && this.pageSize == pageSize && nextFreeIdentifier == hint
      ensures world == World({}, {}, false, 0, 0)
    {
      this.kernel, this.pageSize, nextFreeIdentifier := kernel, pageSize, hint;
      world := World({}, {}, false, 0, 0);
    }

    method DoReleaseDevice(dev: Device) returns (ret: int)
      modifies this`world, dev`status
      ensures Answer(ret, world) == DoReset(kernel, old(world), dev.identifier)
      ensures dev.status == if ret == 0 then old(dev.status) - CLAIMED else old(dev.status)
    {
      var a := DoReset(kernel, world, dev.identifier);
      ret, world := a.ret, a.world;
      if ret == 0 {
        dev.status := dev.status - CLAIMED;
      }
    }

    method DoClaimDevice(dev: Device) returns (ret: int)
      modifies this`world, dev`status
      ensures Answer(ret, world) == DoClaim(kernel, old(world), dev.identifier)
      ensures dev.status == if ret == 0 then old(dev.status) + CLAIMED else old(dev.status)
    {
      var a := DoClaim(kernel, world, dev.identifier);
      ret, world := a.ret, a.world;
      if ret == 0 {
        dev.status := dev.status + CLAIMED;
      }
    }

    /** Claim, reset, set the compression, claim again. */
    method ClaimDevice(dev: Device) returns (ret: int)
      requires Valid()
      modifies this`world, dev`status, dev`compressionKnown
      ensures old(dev.status) !! CLAIMED ==>
                && Answer(ret, world) == ClaimNew(kernel, old(world), dev.identifier, Bytes(dev.sizeM))
                && (dev.status == if ret == 0 || dev.identifier in world.mine - old(world.mine)
                                  then old(dev.status) + CLAIMED else old(dev.status))
                && (ret == 0 ==>
                      (dev.compressionKnown <==>
                         old(dev.compressionKnown)
                         && kernel.refusal(old(world.tick) + 3, dev.identifier, WriteCompression) == 0))
      ensures !(old(dev.status) !! CLAIMED) ==>
                && ret in {-1, -10} && dev.status == old(dev.status) && dev.compressionKnown == old(dev.compressionKnown)
                && world == CheckInitstate(kernel, old(world), dev.identifier).world
    {
      var a := CheckInitstate(kernel, world, dev.identifier);
      world := a.world;
      if a.ret != 0 {
        return -1;
      }
      if !(dev.status !! CLAIMED) {
        return -10;
      }
      if Bytes(dev.sizeM) == 0 {
        return -1;
      }
      ret := DoClaimDevice(dev);
      if ret != 0 {
        return;
      }
      ret := DoReleaseDevice(dev);
      if ret != 0 {
        world := world.(leaked := world.leaked + {dev.identifier});
        return -1;
      }
      a := DoCompression(kernel, world, dev.identifier);
      world := a.world;
      if a.ret < 0 {
        dev.compressionKnown := false;
      }
      ret := DoClaimDevice(dev);
    }

    method ReleaseDevice(dev: Device, force: bool) returns (ret: int)
      modifies this`world, dev`status
      ensures var held, busy := !(old(dev.status) !! CLAIMED), StatusInUse in old(dev.status);
              if !force && !held then ret == -2 && world == old(world) && dev.status == old(dev.status)
              else if !force && busy then ret == -3 && world == old(world) && dev.status == old(dev.status)
              else
                && Answer(ret, world) == DoReset(kernel, old(world), dev.identifier)
                && dev.status == if ret == 0 then old(dev.status) - CLAIMED else old(dev.status)
    {
      if !force {
        if StatusClaimed !in dev.status && StatusInitialized !in dev.status {
          return -2;
        }
        if StatusInUse in dev.status {
          return -3;
        }
      }
      ret := DoReleaseDevice(dev);
    }

    method ClaimFromIdentifier(identifier: Dev, sizeM: nat) returns (dev: Device?)
      requires Valid()
      modifies this`world
      ensures var a := ClaimNew(kernel, old(world), identifier, Bytes(sizeM));
              && world == a.world
              && (dev != null <==> a.ret == 0)
              && (dev != null ==> fresh(dev) && dev.identifier == identifier && dev.status == CLAIMED)
    {
      var d := new Device(identifier);
      d.sizeM := sizeM;
      var ret := ClaimDevice(d);
      return if ret != 0 then null else d;
    }

    /** Everything but `slot` of the output array stays as it was. */
    twostate predicate OnlySlot(out: array<Device?>, slot: nat)
      reads out
    {
      forall j :: 0 <= j < out.Length && j != slot ==> out[j] == old(out[j])
    }

    method ClaimNextFreeStartFrom(start: nat, sizeM: nat, out: array<Device?>, slot: nat) returns (ret: int)
      requires Valid() && slot < out.Length
      modifies this`world, this`nextFreeIdentifier, out
      ensures Valid() && OnlySlot(out, slot)
      ensures var f := ScanFrom(kernel, old(world), start, Bytes(sizeM));
              && ret == f.ret && world == f.world
              && (if ret != 0 then out[slot] == old(out[slot]) && nextFreeIdentifier == old(nextFreeIdentifier)
                  else
                    && out[slot] != null && fresh(out[slot])
                    && out[slot].identifier == f.dev && out[slot].status == CLAIMED
                    && nextFreeIdentifier == (f.dev + 1) % 256)
    {
      var id: int := start;
      while id < 256
        invariant start <= id
        invariant ScanFrom(kernel, old(world), start, Bytes(sizeM)) == ScanFrom(kernel, world, id, Bytes(sizeM))
        invariant Valid() && nextFreeIdentifier == old(nextFreeIdentifier)
        invariant forall j :: 0 <= j < out.Length ==> out[j] == old(out[j])
        decreases 256 - id
      {
        var dev := ClaimFromIdentifier(id, sizeM);
        if dev != null {
          out[slot] := dev;
          nextFreeIdentifier := (id + 1) % 256;
          return 0;
        } else if NotWorthTryingAgain(world.errno) {
          return -2;
        }
        id := id + 1;
      }
      return -1;
    }

    method ClaimNextFree(sizeM: nat, out: array<Device?>, slot: nat) returns (ret: int)
      requires Valid() && slot < out.Length
      modifies this`world, this`nextFreeIdentifier, out
      ensures Valid() && OnlySlot(out, slot)
      ensures old(out[slot]) != null ==>
                && ret == -6 && world == old(world) && out[slot] == old(out[slot])
                && nextFreeIdentifier == old(nextFreeIdentifier)
      ensures old(out[slot]) == null ==>
                var f := NextFree(kernel, old(world), old(nextFreeIdentifier), Bytes(sizeM));
                && ret == f.ret && world == f.world
                && (if ret != 0 then out[slot] == null && nextFreeIdentifier == old(nextFreeIdentifier)
                    else
                      && out[slot] != null && fresh(out[slot])
                      && out[slot].identifier == f.dev && out[slot].status == CLAIMED
                      && nextFreeIdentifier == (f.dev + 1) % 256)
    {
      if out[slot] != null {
        return -6;
      }
      if nextFreeIdentifier > 0 {
        ret := ClaimNextFreeStartFrom(nextFreeIdentifier, sizeM, out, slot);
        if ret == 0 {
          return;
        }
      }
      ret := ClaimNextFreeStartFrom(0, sizeM, out, slot);
    }

    /** The first `n` slots hold distinct claimed handles for `devs`. */
    ghost predicate Holds(out: array<Device?>, devs: seq<Dev>)
      reads out, set j | 0 <= j < out.Length :: out[j]
    {
      && |devs| <= out.Length
      && (forall j :: 0 <= j < |devs| ==> out[j] != null && out[j].identifier == devs[j] && out[j].status == CLAIMED)
      && (forall i, j :: 0 <= i < j < |devs| ==> out[i] != out[j])
    }

    function BytesOfAll(sizes: seq<nat>): (r: seq<nat>)
      requires pageSize < SIZE_T
      ensures |r| == |sizes|
    {
      seq(|sizes|, i requires 0 <= i < |sizes| => Bytes(sizes[i]))
    }

    method RollBack(out: array<Device?>, n: nat, last: nat, ghost devs: seq<Dev>) returns (ret: int)
      requires n == |devs| && Holds(out, devs)
      modifies this`world, set j | 0 <= j < n :: out[j]
      ensures ret != 0 && Answer(ret, world) == Rollback(kernel, old(world), devs, n, last)
    {
      ret := -1;
      var j := n;
      while j > last
        invariant 0 <= j <= n
        invariant Holds(out, devs[..j])
        invariant ret in {-1, -20}
        invariant var r := Rollback(kernel, world, devs, j, last);
                  Rollback(kernel, old(world), devs, n, last) == if ret == -20 then r.(ret := -20) else r
      {
        j := j - 1;
        var fret := ReleaseDevice(out[j], false);
        if fret != 0 {
          ret := -20;
        }
      }
    }

    /** The loop has claimed the devices of batch `b` so far, and nothing failed yet. */
    ghost predicate InBatch(out: array<Device?>, b: Batch)
      reads this, out, set j | 0 <= j < out.Length :: out[j]
    {
      b.complete && b.world == world && b.hint == nextFreeIdentifier && Holds(out, b.devs)
    }

    /** One round of a claim loop: fills the next slot, leaving the handles before it alone. */
    method ClaimOneMore(sizes: seq<nat>, i: nat, out: array<Device?>, ghost w: World, ghost hint: nat)
      returns (ret: int, ghost b: Batch)
      requires Valid() && i < |sizes| && i < out.Length
      requires InBatch(out, ClaimBatch(kernel, w, hint, BytesOfAll(sizes)[..i]))
      modifies this`world, this`nextFreeIdentifier, out
      ensures Valid() && OnlySlot(out, i) && b == ClaimBatch(kernel, w, hint, BytesOfAll(sizes)[..i + 1])
      ensures ret == 0 ==> InBatch(out, b) && fresh(out[i])
      ensures ret != 0 ==> !b.complete && b.world == world && |b.devs| == i && Holds(out, b.devs)
    {
      ghost var all := BytesOfAll(sizes);
      assert all[..i + 1][..i] == all[..i];
      b := ClaimBatch(kernel, w, hint, all[..i + 1]);
      out[i] := null;
      ret := ClaimNextFree(sizes[i], out, i);
    }

    /** Device `i` could not be claimed: the ones before it are released again. */
    method GiveUp(sizes: seq<nat>, i: nat, out: array<Device?>, last: nat, ghost w: World, ghost hint: nat, ghost b: Batch)
      returns (ret: int)
      requires Valid() && i < |sizes| && b == ClaimBatch(kernel, w, hint, BytesOfAll(sizes)[..i + 1])
      requires !b.complete && b.world == world && |b.devs| == i && Holds(out, b.devs)
      modifies this`world, set j | 0 <= j < i :: out[j]
      ensures Valid() && ret != 0
      ensures Answer(ret, world) == ClaimSeveral(kernel, w, hint, BytesOfAll(sizes), last)
    {
      BatchStops(kernel, w, hint, BytesOfAll(sizes), i + 1);
      ret := RollBack(out, i, last, b.devs);
    }

    /**
    The common shape of the two claim loops: they differ in where the sizes come from and in
    the lowest index their rollback reaches.
    */
    method ClaimSeveralFrom(sizes: seq<nat>, out: array<Device?>, last: nat) returns (ret: int)
      requires Valid() && |sizes| <= out.Length
      modifies this`world, this`nextFreeIdentifier, out
      ensures Valid()
      ensures Answer(ret, world) ==
              ClaimSeveral(kernel, old(world), old(nextFreeIdentifier), BytesOfAll(sizes), last)
      ensures ret == 0 ==>
                Holds(out, ClaimBatch(kernel, old(world), old(nextFreeIdentifier), BytesOfAll(sizes)).devs)
    {
      ghost var all := BytesOfAll(sizes);
      ghost var w, hint := world, nextFreeIdentifier;
      for i := 0 to |sizes|
        invariant Valid() && InBatch(out, ClaimBatch(kernel, w, hint, all[..i]))
        invariant forall j :: 0 <= j < i ==> fresh(out[j])
      {
        ghost var b;
        ret, b := ClaimOneMore(sizes, i, out, w, hint);
        if ret != 0 {
          ret := GiveUp(sizes, i, out, last, w, hint, b);
          return;
        }
      }
      assert all[..|sizes|] == all;
      return 0;
    }

    /** zram_claim_several_varsize_next_free(): rolls back down to index 0. */
    method ClaimSeveralVarsizeNextFree(sizes: seq<nat>, out: array<Device?>) returns (ret: int)
      requires Valid() && |sizes| <= out.Length
      modifies this`world, this`nextFreeIdentifier, out
      ensures Valid()
      ensures Answer(ret, world) == ClaimSeveral(kernel, old(world), old(nextFreeIdentifier), BytesOfAll(sizes), 0)
      ensures ret == 0 ==>
                Holds(out, ClaimBatch(kernel, old(world), old(nextFreeIdentifier), BytesOfAll(sizes)).devs)
    {
      ret := ClaimSeveralFrom(sizes, out, 0);
    }

    /** zram_claim_several_next_free(): rolls back down to index 1 only. */
    method ClaimSeveralNextFree(count: nat, sizeM: nat, out: array<Device?>) returns (ret: int)
      requires Valid() && count <= out.Length
      modifies this`world, this`nextFreeIdentifier, out
      ensures Valid()
      ensures Answer(ret, world) ==
              ClaimSeveral(kernel, old(world), old(nextFreeIdentifier), BytesOfAll(seq(count, _ => sizeM)), 1)
    {
      ret := ClaimSeveralFrom(seq(count, _ => sizeM), out, 1);
    }
  }
}
