/** Claiming several devices in one call, with rollback. */
module ZramBatch {
  import opened ZramKernel

  datatype Batch = Batch(devs: seq<Dev>, complete: bool, world: World, hint: nat)

  function Extend(k: Kernel, b: Batch, size: nat): Batch {
    var f := NextFree(k, b.world, b.hint, size);
    if f.ret == 0 then Batch(b.devs + [f.dev], true, f.world, (f.dev + 1) % 256)
    else Batch(b.devs, false, f.world, b.hint)
  }

  /** Claims one device a size, in order, until one claim fails. */
  function ClaimBatch(k: Kernel, w: World, hint: nat, sizes: seq<nat>): (b: Batch)
    ensures |b.devs| <= |sizes|
    ensures b.complete ==> |b.devs| == |sizes|
  {
    if sizes == [] then Batch([], true, w, hint)
    else
      var b := ClaimBatch(k, w, hint, sizes[..|sizes| - 1]);
      if b.complete then Extend(k, b, sizes[|sizes| - 1]) else b
  }

  /** Once a claim failed, the sizes after it are not looked at. */
  lemma {:induction false} BatchStops(k: Kernel, w: World, hint: nat, sizes: seq<nat>, i: nat)
    requires i <= |sizes| && !ClaimBatch(k, w, hint, sizes[..i]).complete
    ensures ClaimBatch(k, w, hint, sizes) == ClaimBatch(k, w, hint, sizes[..i])
    decreases |sizes|
  {
    if i < |sizes| {
      var front := sizes[..|sizes| - 1];
      assert front[..i] == sizes[..i];
      BatchStops(k, w, hint, front, i);
    } else {
      assert sizes[..i] == sizes;
    }
  }

  /** Releases devs[upto-1], devs[upto-2], ..., devs[last]; -20 if any reset is refused. */
  function Rollback(k: Kernel, w: World, devs: seq<Dev>, upto: nat, last: nat): Answer
    requires upto <= |devs|
    decreases upto
  {
    if upto <= last then Answer(-1, w)
    else
      var a := DoReset(k, w, devs[upto - 1]);
      var r := Rollback(k, a.world, devs, upto - 1, last);
      if a.ret != 0 then r.(ret := -20) else r
  }

  /** `last` is the lowest index the caller's rollback loop reaches. */
  function ClaimSeveral(k: Kernel, w: World, hint: nat, sizes: seq<nat>, last: nat): Answer {
    var b := ClaimBatch(k, w, hint, sizes);
    if b.complete then Answer(0, b.world) else Rollback(k, b.world, b.devs, |b.devs|, last)
  }

  // ---- what the batch holds -----------------------------------------------------------------

  ghost predicate Distinct(s: seq<Dev>) {
    forall i, j :: 0 <= i < j < |s| ==> s[i] != s[j]
  }

  function Elements(s: seq<Dev>): set<Dev> {
    set d | d in s
  }

  lemma GrewTwice(w: World, m: World, t: World, a: set<Dev>, b: set<Dev>)
    requires Sound(w) && Sound(m) && Grew(w, m, a) && Grew(m, t, b)
    ensures Grew(w, t, a + b)
  {
    assert t.leaked - w.leaked == (t.leaked - m.leaked) + (m.leaked - w.leaked);
    forall d | d in t.leaked - w.leaked
      ensures d !in a + b
    {
      if d in m.leaked {
        assert d in m.leaked - w.leaked && d in m.mine;
      } else {
        assert d in t.leaked - m.leaked;
      }
    }
  }

  lemma {:induction false} BatchEffect(k: Kernel, w: World, hint: nat, sizes: seq<nat>)
    requires Sound(w)
    ensures var b := ClaimBatch(k, w, hint, sizes);
            Sound(b.world) && Distinct(b.devs) && Grew(w, b.world, Elements(b.devs))
  {
    if sizes != [] {
      BatchEffect(k, w, hint, sizes[..|sizes| - 1]);
      var b := ClaimBatch(k, w, hint, sizes[..|sizes| - 1]);
      if b.complete {
        NextFreeEffect(k, b.world, b.hint, sizes[|sizes| - 1]);
        var f := NextFree(k, b.world, b.hint, sizes[|sizes| - 1]);
        GrewTwice(w, b.world, f.world, Elements(b.devs), if f.ret == 0 then {f.dev} else {});
        if f.ret == 0 {
          assert Elements(b.devs + [f.dev]) == Elements(b.devs) + {f.dev};
          assert f.dev !in Elements(b.devs);
        } else {
          assert Elements(b.devs) + {} == Elements(b.devs);
        }
      }
    } else {
      assert Elements([]) == {};
    }
  }

  /** A rollback touches only the devices it goes over, and reports exactly whether one stayed claimed. */
  lemma {:induction false} RollbackEffect(k: Kernel, w: World, devs: seq<Dev>, upto: nat, last: nat)
    requires last <= upto <= |devs| && Distinct(devs)
    requires forall i :: 0 <= i < upto ==> devs[i] in w.mine
    ensures var r := Rollback(k, w, devs, upto, last);
            && r.ret in {-1, -20}
            && r.world.foul == w.foul && r.world.leaked == w.leaked
            && w.mine - Elements(devs[last..upto]) <= r.world.mine <= w.mine
            && (r.ret == -1 <==> r.world.mine == w.mine - Elements(devs[last..upto]))
    decreases upto
  {
    if last < upto {
      var d := devs[upto - 1];
      var a := DoReset(k, w, d);
      RollbackEffect(k, a.world, devs, upto - 1, last);
      assert devs[last..upto] == devs[last..upto - 1] + [d];
      assert Elements(devs[last..upto]) == Elements(devs[last..upto - 1]) + {d};
      assert d !in devs[last..upto - 1];
    } else {
      assert Elements(devs[last..upto]) == {};
    }
  }

  /** Giving back the devices `back` of those gained leaves the others gained. */
  lemma GaveBack(w: World, b: World, r: World, gained: set<Dev>, back: set<Dev>)
    requires Grew(w, b, gained) && back <= gained
    requires r.foul == b.foul && r.leaked == b.leaked && b.mine - back <= r.mine <= b.mine
    ensures Grew(w, r, gained - back) <==> r.mine == b.mine - back
    ensures gained - back != {} ==> !Grew(w, r, {})
  {
    assert (gained - back) !! w.mine && (gained - back) !! (r.leaked - w.leaked);
  }

  // ---- main results -------------------------------------------------------------------------

  /**
  zram_claim_several_varsize_next_free() is all-or-nothing: 0 means as many distinct devices as
  sizes, all claimed; -1 means none of them is claimed any more; -20 means at least one is,
  because its reset was refused. Only devices leaked inside a failed claim remain either way.
  */
  lemma AllOrNothing(k: Kernel, w: World, hint: nat, sizes: seq<nat>)
    requires Sound(w)
    ensures var b, r := ClaimBatch(k, w, hint, sizes), ClaimSeveral(k, w, hint, sizes, 0);
            && r.ret in {0, -1, -20}
            && (r.ret == 0 ==> |b.devs| == |sizes| && Distinct(b.devs) && Grew(w, r.world, Elements(b.devs)))
            && (r.ret != 0 ==> (r.ret == -1 <==> Grew(w, r.world, {})))
            && (r.ret != 0 ==> (r.ret == -20 <==> exists d :: d in b.devs && d in r.world.mine))
            && r.world.foul == w.foul
  {
    BatchEffect(k, w, hint, sizes);
    var b := ClaimBatch(k, w, hint, sizes);
    if !b.complete {
      RollbackEffect(k, b.world, b.devs, |b.devs|, 0);
      assert b.devs[0..|b.devs|] == b.devs;
      var r := ClaimSeveral(k, w, hint, sizes, 0);
      assert Elements(b.devs) - Elements(b.devs) == {};
      GaveBack(w, b.world, r.world, Elements(b.devs), Elements(b.devs));
      if r.ret == -20 {
        var d :| d in r.world.mine && d in Elements(b.devs);
        assert d in b.devs;
      }
    }
  }

  /**
  The same-size variant stops its rollback at index 1: whenever it fails after a first success,
  its first device stays claimed, so it is all-or-nothing exactly if the very first claim failed.
  */
  lemma SameSizeKeepsTheFirst(k: Kernel, w: World, hint: nat, sizes: seq<nat>)
    requires Sound(w) && !ClaimBatch(k, w, hint, sizes).complete
    ensures var b, r := ClaimBatch(k, w, hint, sizes), ClaimSeveral(k, w, hint, sizes, 1);
            && (Grew(w, r.world, {}) <==> b.devs == [])
            && (b.devs != [] ==> b.devs[0] in r.world.mine && b.devs[0] !in w.mine)
            && (b.devs != [] ==> (r.ret == -1 <==> Grew(w, r.world, {b.devs[0]})))
            && r.world.foul == w.foul
  {
    BatchEffect(k, w, hint, sizes);
    var b := ClaimBatch(k, w, hint, sizes);
    if b.devs != [] {
      var d, back := b.devs[0], Elements(b.devs[1..]);
      RollbackEffect(k, b.world, b.devs, |b.devs|, 1);
      assert b.devs[1..|b.devs|] == b.devs[1..];
      assert b.devs == [d] + b.devs[1..];
      assert Elements(b.devs) == {d} + back && d !in back;
      assert Elements(b.devs) - back == {d};
      GaveBack(w, b.world, ClaimSeveral(k, w, hint, sizes, 1).world, Elements(b.devs), back);
    } else {
      assert Elements(b.devs) == {};
    }
  }

  /** There is just one device. */
  const ONLY_ONE := Kernel((t: nat) => {}, (t: nat, d: Dev, a: Access) => if d == 0 then 0 else ENOENT)

  /** Two devices are asked for where there is one: the call fails, and keeps that one. */
  lemma SameSizeOnOneDevice()
    ensures var w := World({}, {}, false, 0, 0);
            var b, r := ClaimBatch(ONLY_ONE, w, 0, [1, 1]), ClaimSeveral(ONLY_ONE, w, 0, [1, 1], 1);
            && !b.complete && b.devs == [0] && r.ret == -1 && r.world.mine == {0}
  {
    var k, w := ONLY_ONE, World({}, {}, false, 0, 0);
    var t := FirstOfOne();
    var b := ClaimBatch(k, w, 0, [1]);
    assert ClaimBatch(k, w, 0, []) == Batch([], true, w, 0) && [1][..0] == [];
    assert b == Batch([0], true, t, 1);
    assert ClaimNew(k, t, 1, 1).world.errno == ENOENT;
    var u := ScanFrom(k, t, 1, 1).world;
    assert u == ClaimNew(k, t, 1, 1).world && u.mine == {0};
    var v := ClaimNew(k, u, 0, 1).world;
    assert v.errno == EBUSY && v.mine == {0};
    assert ScanFrom(k, u, 0, 1) == ScanFrom(k, v, 1, 1) == Found(-2, 0, ClaimNew(k, v, 1, 1).world);
    assert [1, 1][..1] == [1];
  }

  lemma FirstOfOne() returns (t: World)
    ensures t.mine == {0} && ScanFrom(ONLY_ONE, World({}, {}, false, 0, 0), 0, 1) == Found(0, 0, t)
  {
    var k, w := ONLY_ONE, World({}, {}, false, 0, 0);
    var a := CheckInitstate(k, w, 0).world;
    var b := DoClaim(k, a, 0).world;
    var c := DoReset(k, b, 0).world;
    var d := DoCompression(k, c, 0).world;
    t := DoClaim(k, d, 0).world;
    assert ClaimNew(k, w, 0, 1) == Answer(0, t);
  }
}
