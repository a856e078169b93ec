/** Collecting, ordering and unmounting mountpoints: init/src/common/fs/umount.c. */
module Umount {
  import opened Wrappers
  import opened StrSplit
  import FsPath

  datatype Info = Info(depth: nat, mp: string)

  /** _get_mount_depth(): the number of runs of slashes. */
  function Depth(s: string): nat
    decreases |s|
  {
    if s == "" then 0
    else if s[0] == '/' then 1 + Depth(s[Span(s, {'/'}, true)..])
    else Depth(s[1..])
  }

  method GetMountDepth(mp: string) returns (depth: nat)
    ensures depth == Depth(mp)
  {
    depth := 0;
    var k := 0;
    assert mp[0..] == mp;
    while k < |mp|
      invariant 0 <= k <= |mp|
      invariant Depth(mp) == depth + Depth(mp[k..])
    {
      if mp[k] == '/' {
        ghost var n := Span(mp[k..], {'/'}, true);
        ghost var start := k;
        assert mp[k..][n..] == mp[k + n..];
        depth, k := depth + 1, k + 1;
        while k < |mp| && mp[k] == '/'
          invariant start < k <= start + n
          decreases |mp| - k
        {
          assert mp[start..][k - start] == mp[k];
          k := k + 1;
        }
      } else {
        assert mp[k..][1..] == mp[k + 1..];
        k := k + 1;
      }
    }
  }

  // ---- collecting -----------------------------------------------------------------------------------

  datatype Entry = Entry(dir: string, fstype: string)

  /** An entry the reader looks at. */
  predicate Considered(e: Entry) {
    e.dir != "" && e.fstype != "autofs"
  }

  /** The effective root: none if it is empty or "/". */
  function EffectiveRoot(root: Option<string>): string {
    if root.None? || root.value == "" || root.value == "/" then "" else root.value
  }

  /** Below the root as whole path components, and deep enough. */
  predicate Wanted(root: string, mindepth: int, e: Entry)
    requires root <= e.dir
  {
    var rem := e.dir[|root|..];
    (rem == "" || rem[0] == '/') && Depth(e.dir) >= mindepth
  }

  /** _read_mountpoint_to_dynarray(): None if it gives up. */
  function Collect(root: string, mindepth: int, entries: seq<Entry>): Option<seq<Info>> {
    if entries == [] then Some([])
    else
      var e := entries[|entries| - 1];
      match Collect(root, mindepth, entries[..|entries| - 1])
      case None => None
      case Some(infos) =>
        if !Considered(e) then Some(infos)
        else if !(root <= e.dir) then None
        else if Wanted(root, mindepth, e) then Some(infos + [Info(Depth(e.dir), e.dir)])
        else Some(infos)
  }

  /** What the reader makes of an entry it keeps. */
  function InfoOf(e: Entry): Info {
    Info(Depth(e.dir), e.dir)
  }

  /** An entry that ends up on the list: not an automount, at or below the root, and deep enough. */
  predicate Listed(root: string, mindepth: int, e: Entry) {
    && e.dir != "" && e.fstype != "autofs"
    && (e.dir == root || root + "/" <= e.dir) && Depth(e.dir) >= mindepth
  }

  lemma ListedIsWanted(root: string, mindepth: int, e: Entry)
    ensures Listed(root, mindepth, e) <==> Considered(e) && root <= e.dir && Wanted(root, mindepth, e)
  {
    if root <= e.dir {
      var rem := e.dir[|root|..];
      assert e.dir == root + rem;
      assert rem != "" && rem[0] == '/' ==> root + "/" == e.dir[..|root| + 1];
    }
  }

  /**
  A single mount outside the root makes the whole collection fail: it succeeds exactly if every
  entry looked at has the root as a textual prefix, and then the list holds exactly the entries
  at or below the root, as whole components, that are deep enough.
  */
  lemma {:induction false} CollectSucceeds(root: string, mindepth: int, entries: seq<Entry>)
    ensures Collect(root, mindepth, entries).Some? <==>
              forall i :: 0 <= i < |entries| && entries[i].dir != "" && entries[i].fstype != "autofs" ==>
                root <= entries[i].dir
    ensures Collect(root, mindepth, entries).Some? ==>
              forall info :: info in Collect(root, mindepth, entries).value <==>
                exists i :: 0 <= i < |entries| && Listed(root, mindepth, entries[i]) && info == InfoOf(entries[i])
  {
    if entries != [] {
      var front, last := entries[..|entries| - 1], entries[|entries| - 1];
      CollectSucceeds(root, mindepth, front);
      if Collect(root, mindepth, entries).Some? {
        forall info
          ensures info in Collect(root, mindepth, entries).value <==>
                    exists i :: 0 <= i < |entries| && Listed(root, mindepth, entries[i]) && info == InfoOf(entries[i])
        {
          ListedAppend(root, mindepth, front, last, info);
          ListedIsWanted(root, mindepth, last);
          assert front + [last] == entries;
        }
      }
    }
  }

  lemma ListedAppend(root: string, mindepth: int, front: seq<Entry>, last: Entry, info: Info)
    ensures (exists i :: 0 <= i < |front + [last]| && Listed(root, mindepth, (front + [last])[i])
                         && info == InfoOf((front + [last])[i]))
       <==> (exists i :: 0 <= i < |front| && Listed(root, mindepth, front[i]) && info == InfoOf(front[i]))
            || (Listed(root, mindepth, last) && info == InfoOf(last))
  {
    var s := front + [last];
    if i :| 0 <= i < |front| && Listed(root, mindepth, front[i]) && info == InfoOf(front[i]) {
      assert s[i] == front[i];
    }
    if Listed(root, mindepth, last) && info == InfoOf(last) {
      assert s[|front|] == last;
    }
  }

  /** _read_mountpoint_to_dynarray() as a loop over the mount table. */
  method ReadMountpoints(root: string, mindepth: int, entries: seq<Entry>) returns (ok: bool, infos: seq<Info>)
    ensures if ok then Collect(root, mindepth, entries) == Some(infos) else Collect(root, mindepth, entries).None?
  {
    infos := [];
    for k := 0 to |entries|
      invariant Collect(root, mindepth, entries[..k]) == Some(infos)
    {
      assert entries[..k + 1][..k] == entries[..k];
      if Considered(entries[k]) {
        if !(root <= entries[k].dir) {
          CollectSucceeds(root, mindepth, entries);
          return false, infos;
        }
        var depth := GetMountDepth(entries[k].dir);
        var rem := entries[k].dir[|root|..];
        if (rem == "" || rem[0] == '/') && depth >= mindepth {
          infos := infos + [Info(depth, entries[k].dir)];
        }
      }
    }
    assert entries[..|entries|] == entries;
    return true, infos;
  }

  /** No root, an empty one and "/" all mean the whole tree: collecting cannot fail. Any other root is meant as it is. */
  lemma WholeTree(root: Option<string>, mindepth: int, entries: seq<Entry>)
    ensures root.Some? && root.value != "" && root.value != "/" ==> EffectiveRoot(root) == root.value
    ensures root.None? || root.value == "" || root.value == "/" ==>
              && Collect(EffectiveRoot(root), mindepth, entries).Some?
              && forall info :: info in Collect(EffectiveRoot(root), mindepth, entries).value <==>
                   exists i :: 0 <= i < |entries| && Listed("", mindepth, entries[i]) && info == InfoOf(entries[i])
  {
    CollectSucceeds("", mindepth, entries);
  }

  // ---- sorting --------------------------------------------------------------------------------------

  /** `x` moves up past every shallower entry at the end of `s`. */
  function InsertBack(s: seq<Info>, x: Info): seq<Info> {
    if s == [] || s[|s| - 1].depth >= x.depth then s + [x]
    else InsertBack(s[..|s| - 1], x) + [s[|s| - 1]]
  }

  function SortBack(s: seq<Info>): seq<Info> {
    if s == [] then [] else InsertBack(SortBack(s[..|s| - 1]), s[|s| - 1])
  }

  /** _umountsort_dynarray(): insertion sort in place. */
  method UmountSort(a: array<Info>)
    modifies a
    ensures a[..] == SortBack(old(a[..]))
  {
    ghost var was := a[..];
    if a.Length == 0 {
      return;
    }
    SortBackStep(was, 0);
    assert a[..1] == [was[0]];
    for k := 1 to a.Length
      invariant a[..k] == SortBack(was[..k]) && a[k..] == was[k..]
    {
      assert a[k] == was[k..][0] && a[k + 1..] == was[k..][1..];
      SortBackStep(was, k);
      InsertAt(a, k, a[k]);
    }
    assert was[..a.Length] == was && a[..a.Length] == a[..];
  }

  lemma SortBackStep(s: seq<Info>, k: nat)
    requires k < |s|
    ensures SortBack(s[..k + 1]) == InsertBack(SortBack(s[..k]), s[k])
  {
    assert s[..k + 1][..k] == s[..k];
  }

  /** The inner loop: opens a gap by shifting shallower entries up and drops `x` into it. */
  method InsertAt(a: array<Info>, k: nat, x: Info)
    requires k < a.Length && a[k] == x
    modifies a
    ensures a[..k + 1] == InsertBack(old(a[..k]), x) && a[k + 1..] == old(a[k + 1..])
  {
    ghost var s := a[..k];
    ghost var rest := a[k + 1..];
    var j := k;
    while j > 0 && a[j - 1].depth < x.depth
      invariant 0 <= j <= k
      invariant forall i :: 0 <= i < j ==> a[i] == s[i]
      invariant forall i :: j < i <= k ==> a[i] == s[i - 1]
      invariant a[k + 1..] == rest
      invariant forall i :: j <= i < k ==> s[i].depth < x.depth
    {
      a[j] := a[j - 1];
      j := j - 1;
    }
    a[j] := x;
    InsertBackAt(s, x, j);
    Gapped(a[..k + 1], s, x, j);
  }

  lemma Gapped(r: seq<Info>, s: seq<Info>, x: Info, j: nat)
    requires j <= |s| && |r| == |s| + 1 && r[j] == x
    requires forall i :: 0 <= i < j ==> r[i] == s[i]
    requires forall i :: j < i < |r| ==> r[i] == s[i - 1]
    ensures r == s[..j] + [x] + s[j..]
  {
  }

  lemma {:induction false} InsertBackAt(s: seq<Info>, x: Info, j: nat)
    requires j <= |s| && forall i :: j <= i < |s| ==> s[i].depth < x.depth
    requires j > 0 ==> s[j - 1].depth >= x.depth
    ensures InsertBack(s, x) == s[..j] + [x] + s[j..]
  {
    if j == |s| {
      assert s[..j] == s && s[j..] == [];
    } else {
      var front := s[..|s| - 1];
      InsertBackAt(front, x, j);
      assert front[..j] == s[..j] && s[j..] == front[j..] + [s[|s| - 1]];
    }
  }

  // ---- what the order guarantees --------------------------------------------------------------------

  ghost predicate DeepestFirst(s: seq<Info>) {
    forall i, j :: 0 <= i < j < |s| ==> s[i].depth >= s[j].depth
  }

  function If(x: Info, d: nat): seq<Info> {
    if x.depth == d then [x] else []
  }

  /** The entries of one depth, in order. */
  function OfDepth(s: seq<Info>, d: nat): seq<Info> {
    if s == [] then [] else OfDepth(s[..|s| - 1], d) + If(s[|s| - 1], d)
  }

  lemma {:induction false} InsertIsPermutation(s: seq<Info>, x: Info)
    ensures multiset(InsertBack(s, x)) == multiset(s) + multiset{x}
  {
    if s != [] && s[|s| - 1].depth < x.depth {
      var front, last := s[..|s| - 1], s[|s| - 1];
      InsertIsPermutation(front, x);
      assert s == front + [last];
    }
  }

  ghost predicate NoShallower(s: seq<Info>, depth: nat) {
    forall i :: 0 <= i < |s| ==> s[i].depth >= depth
  }

  lemma {:induction false} InsertStaysDeep(s: seq<Info>, x: Info, depth: nat)
    requires NoShallower(s, depth) && x.depth >= depth
    ensures NoShallower(InsertBack(s, x), depth)
  {
    if s != [] && s[|s| - 1].depth < x.depth {
      InsertStaysDeep(s[..|s| - 1], x, depth);
    }
  }

  lemma {:induction false} InsertKeepsOrder(s: seq<Info>, x: Info)
    requires DeepestFirst(s)
    ensures DeepestFirst(InsertBack(s, x))
  {
    if s != [] && s[|s| - 1].depth < x.depth {
      var front, last := s[..|s| - 1], s[|s| - 1];
      InsertKeepsOrder(front, x);
      InsertStaysDeep(front, x, last.depth);
    }
  }

  lemma OfDepthAppend(s: seq<Info>, x: Info, d: nat)
    ensures OfDepth(s + [x], d) == OfDepth(s, d) + If(x, d)
  {
    assert (s + [x])[..|s|] == s;
  }

  lemma {:induction false} InsertIsStable(s: seq<Info>, x: Info, d: nat)
    ensures OfDepth(InsertBack(s, x), d) == OfDepth(s, d) + If(x, d)
  {
    if s == [] || s[|s| - 1].depth >= x.depth {
      OfDepthAppend(s, x, d);
    } else {
      var front, last := s[..|s| - 1], s[|s| - 1];
      InsertIsStable(front, x, d);
      OfDepthAppend(InsertBack(front, x), last, d);
      assert OfDepth(front, d) + If(x, d) + If(last, d) == OfDepth(front, d) + If(last, d) + If(x, d);
    }
  }

  /** The result is a permutation of the input, deepest first. */
  lemma {:induction false} SortBackSorts(s: seq<Info>)
    ensures DeepestFirst(SortBack(s)) && multiset(SortBack(s)) == multiset(s)
  {
    if s != [] {
      var front, last := s[..|s| - 1], s[|s| - 1];
      SortBackSorts(front);
      InsertKeepsOrder(SortBack(front), last);
      InsertIsPermutation(SortBack(front), last);
      assert s == front + [last];
    }
  }

  /** Mounts of equal depth keep the order in which they were found. */
  lemma {:induction false} SortBackIsStable(s: seq<Info>, d: nat)
    ensures OfDepth(SortBack(s), d) == OfDepth(s, d)
  {
    if s != [] {
      SortBackIsStable(s[..|s| - 1], d);
      InsertIsStable(SortBack(s[..|s| - 1]), s[|s| - 1], d);
    }
  }

  lemma {:induction false} DepthOfAppend(a: string, y: string)
    requires a != "" ==> a[|a| - 1] != '/'
    ensures Depth(a + y) == Depth(a) + Depth(y)
    decreases |a|
  {
    if a == "" {
      assert a + y == y;
    } else if a[0] == '/' {
      var n := Span(a, {'/'}, true);
      assert n < |a|;
      assert Span(a + y, {'/'}, true) == n by {
        SpanOfAppend(a, y);
      }
      assert (a + y)[n..] == a[n..] + y;
      DepthOfAppend(a[n..], y);
    } else {
      assert (a + y)[1..] == a[1..] + y;
      DepthOfAppend(a[1..], y);
    }
  }

  lemma {:induction false} SpanOfAppend(a: string, y: string)
    requires Span(a, {'/'}, true) < |a|
    ensures Span(a + y, {'/'}, true) == Span(a, {'/'}, true)
  {
    if a[0] == '/' {
      assert (a + y)[1..] == a[1..] + y;
      SpanOfAppend(a[1..], y);
    }
  }

  /** A path is never less deep than its beginning. */
  lemma {:induction false} DepthGrows(a: string, y: string)
    ensures Depth(a + y) >= Depth(a)
    decreases |a|
  {
    if a != "" {
      if a[0] == '/' {
        var n := Span(a, {'/'}, true);
        if n < |a| {
          SpanOfAppend(a, y);
          assert (a + y)[n..] == a[n..] + y;
          DepthGrows(a[n..], y);
        } else {
          assert a[n..] == "" && (a + y)[0] == '/';
        }
      } else {
        assert (a + y)[1..] == a[1..] + y;
        DepthGrows(a[1..], y);
      }
    }
  }

  lemma {:induction false} DepthOfComponent(w: string)
    requires FreeOf(w, {'/'})
    ensures Depth(w) == 0 && Depth("/" + w) == 1
  {
    assert ("/" + w)[1..] == w;
    assert Span("/" + w, {'/'}, true) == 1 + Span(w, {'/'}, true) && Span(w, {'/'}, true) == 0;
    if w != "" {
      DepthOfComponent(w[1..]);
    }
  }

  /** The depth of a normalised absolute path is the number of its components, and 1 for the root. */
  lemma {:induction false} DepthCountsComponents(ws: seq<string>)
    requires FsPath.AreComponents(ws)
    ensures Depth(FsPath.Normal(true, ws)) == if ws == [] then 1 else |ws|
  {
    if |ws| > 0 {
      DepthOfComponent(ws[0]);
    }
    if |ws| == 0 {
      DepthOfComponent("");
      assert "/" + "" == FsPath.Normal(true, ws);
    } else if |ws| == 1 {
      assert FsPath.Normal(true, ws) == "/" + ws[0];
    } else {
      DepthCountsComponents(ws[1..]);
      var a, y := "/" + ws[0], "/" + FsPath.JoinSlash(ws[1..]);
      assert FsPath.Normal(true, ws) == a + y;
      DepthOfAppend(a, y);
    }
  }

  predicate EndsInSlash(s: string) {
    s != "" && s[|s| - 1] == '/'
  }

  /** `inner` lies strictly below `outer`, which may be "/". */
  predicate Below(inner: string, outer: string) {
    inner != outer && (if EndsInSlash(outer) then outer else outer + "/") <= inner
  }

  lemma BelowIsDeeper(inner: string, outer: string)
    requires Below(inner, outer)
    ensures Depth(inner) >= Depth(outer)
    ensures !EndsInSlash(outer) ==> Depth(inner) > Depth(outer)
  {
    var rest := inner[|outer|..];
    assert inner == outer + rest;
    if EndsInSlash(outer) {
      DepthGrows(outer, rest);
    } else {
      assert rest[0] == '/';
      DepthOfAppend(outer, rest);
    }
  }

  // ---- where each mount ends up -----------------------------------------------------------------------

  /** How many entries are at least that deep. */
  function AtLeast(s: seq<Info>, depth: nat): (n: nat)
    ensures n <= |s|
  {
    if s == [] then 0 else AtLeast(s[..|s| - 1], depth) + if s[|s| - 1].depth >= depth then 1 else 0
  }

  /** The index in the unmount order of entry `k` of the list. */
  function Place(s: seq<Info>, k: nat): nat
    requires k < |s|
  {
    var front, last := s[..|s| - 1], s[|s| - 1];
    if k == |s| - 1 then AtLeast(front, last.depth) else Place(front, k) + if last.depth > s[k].depth then 1 else 0
  }

  lemma AtLeastAppend(s: seq<Info>, x: Info, depth: nat)
    ensures AtLeast(s + [x], depth) == AtLeast(s, depth) + if x.depth >= depth then 1 else 0
  {
    assert (s + [x])[..|s|] == s;
  }

  lemma {:induction false} InsertCounts(s: seq<Info>, x: Info, depth: nat)
    ensures AtLeast(InsertBack(s, x), depth) == AtLeast(s, depth) + if x.depth >= depth then 1 else 0
  {
    if s == [] || s[|s| - 1].depth >= x.depth {
      AtLeastAppend(s, x, depth);
    } else {
      InsertCounts(s[..|s| - 1], x, depth);
      AtLeastAppend(InsertBack(s[..|s| - 1], x), s[|s| - 1], depth);
    }
  }

  lemma {:induction false} SortCounts(s: seq<Info>, depth: nat)
    ensures AtLeast(SortBack(s), depth) == AtLeast(s, depth)
  {
    if s != [] {
      SortCounts(s[..|s| - 1], depth);
      InsertCounts(SortBack(s[..|s| - 1]), s[|s| - 1], depth);
    }
  }

  /** In a list with the deepest first, those at least that deep lead. */
  lemma {:induction false} DeepOnesLead(t: seq<Info>, depth: nat)
    requires DeepestFirst(t)
    ensures forall i :: 0 <= i < |t| ==> (t[i].depth >= depth <==> i < AtLeast(t, depth))
  {
    if t != [] {
      var front := t[..|t| - 1];
      DeepOnesLead(front, depth);
      if t[|t| - 1].depth >= depth {
        assert forall i :: 0 <= i < |front| ==> front[i].depth >= depth;
        assert |front| > 0 ==> front[|front| - 1].depth >= depth;
      }
    }
  }

  lemma SortedCut(s: seq<Info>, depth: nat)
    ensures var t := SortBack(s);
            |t| == |s| && forall i :: 0 <= i < |t| ==> (t[i].depth >= depth <==> i < AtLeast(s, depth))
  {
    SortBackSorts(s);
    assert |SortBack(s)| == |multiset(SortBack(s))| == |multiset(s)| == |s|;
    SortCounts(s, depth);
    DeepOnesLead(SortBack(s), depth);
  }

  /** The next entry goes behind exactly those at least as deep. */
  lemma InsertedAt(s: seq<Info>, x: Info)
    ensures var j, t := AtLeast(s, x.depth), SortBack(s);
            |t| == |s| && SortBack(s + [x]) == t[..j] + [x] + t[j..]
  {
    assert (s + [x])[..|s|] == s;
    SortedCut(s, x.depth);
    InsertBackAt(SortBack(s), x, AtLeast(s, x.depth));
  }

  lemma {:induction false} PlaceIs(s: seq<Info>, k: nat)
    requires k < |s|
    ensures |SortBack(s)| == |s| && Place(s, k) < |s| && SortBack(s)[Place(s, k)] == s[k]
  {
    var front, last := s[..|s| - 1], s[|s| - 1];
    InsertedAt(front, last);
    assert front + [last] == s;
    if k < |front| {
      PlaceIs(front, k);
      SortedCut(front, last.depth);
    }
  }

  /** Entry `a` of the list comes before entry `b` exactly if it is deeper, or equally deep and was found first. */
  lemma {:induction false} PlaceOrder(s: seq<Info>, a: nat, b: nat)
    requires a < |s| && b < |s| && a != b
    ensures Place(s, a) < Place(s, b) <==> s[a].depth > s[b].depth || (s[a].depth == s[b].depth && a < b)
    ensures Place(s, a) != Place(s, b)
  {
    var front, last := s[..|s| - 1], s[|s| - 1];
    if a < |front| && b < |front| {
      PlaceOrder(front, a, b);
    } else {
      var k := if a < b then a else b;
      PlaceIs(front, k);
      SortedCut(front, last.depth);
    }
  }

  /** A list as the collector makes it. */
  ghost predicate DepthsAreRight(infos: seq<Info>) {
    forall k :: 0 <= k < |infos| ==> infos[k].depth == Depth(infos[k].mp)
  }

  lemma CollectedDepths(root: string, mindepth: int, entries: seq<Entry>)
    requires Collect(root, mindepth, entries).Some?
    ensures DepthsAreRight(Collect(root, mindepth, entries).value)
  {
    CollectSucceeds(root, mindepth, entries);
    var infos := Collect(root, mindepth, entries).value;
    forall k | 0 <= k < |infos|
      ensures infos[k].depth == Depth(infos[k].mp)
    {
      assert infos[k] in infos;
    }
  }

  /**
  Whatever was collected, a mount strictly below another one is unmounted before it exactly if
  it is deeper or was found first. It always is deeper unless the outer mountpoint ends in a
  slash, that is, unless it is "/".
  */
  lemma InnerMountsFirst(infos: seq<Info>, inner: nat, outer: nat)
    requires inner < |infos| && outer < |infos| && DepthsAreRight(infos)
    requires Below(infos[inner].mp, infos[outer].mp)
    ensures var order := UmountOrder(infos);
            && |order| == |infos| && Place(infos, inner) < |order| && Place(infos, outer) < |order|
            && order[Place(infos, inner)] == infos[inner].mp && order[Place(infos, outer)] == infos[outer].mp
    ensures Place(infos, inner) < Place(infos, outer) <==>
              Depth(infos[inner].mp) > Depth(infos[outer].mp) || inner < outer
    ensures !EndsInSlash(infos[outer].mp) ==> Place(infos, inner) < Place(infos, outer)
  {
    PlaceIs(infos, inner);
    PlaceIs(infos, outer);
    PlaceOrder(infos, inner, outer);
    BelowIsDeeper(infos[inner].mp, infos[outer].mp);
  }

  lemma DepthOfRoot()
    ensures Depth("/") == 1
  {
    assert "/"[1..] == "" && Depth("") == 0;
  }

  /** The root is unmounted after a mount below it exactly if that is more than one level down or was found first. */
  lemma RootOrder(infos: seq<Info>, inner: nat, root: nat)
    requires inner < |infos| && root < |infos| && DepthsAreRight(infos)
    requires infos[root].mp == "/" && Below(infos[inner].mp, "/")
    ensures Place(infos, inner) < Place(infos, root) <==> Depth(infos[inner].mp) > 1 || inner < root
  {
    InnerMountsFirst(infos, inner, root);
    DepthOfRoot();
  }

  /** With "/" first in the mount table, as it is, it is unmounted before the mounts right below it. */
  lemma RootMayComeFirst()
    ensures var infos := [InfoOf(Entry("/", "ext4")), InfoOf(Entry("/a", "ext4"))];
            && DepthsAreRight(infos) && Below(infos[1].mp, infos[0].mp)
            && Place(infos, 0) < Place(infos, 1) && UmountOrder(infos) == ["/", "/a"]
  {
    var infos := [InfoOf(Entry("/", "ext4")), InfoOf(Entry("/a", "ext4"))];
    DepthOfRoot();
    assert "/a"[1..] == "a" && "a"[1..] == "" && Depth("a") == Depth("");
    RootOrder(infos, 1, 0);
    PlaceOrder(infos, 0, 1);
    InnerMountsFirst(infos, 1, 0);
  }

  // ---- unmounting -----------------------------------------------------------------------------------

  /** _do_umount_dynarray(): `result(k)` is what do_umount() says to the k-th mountpoint. */
  method DoUmountAll(a: array<Info>, result: nat -> int) returns (retcode: int, calls: seq<string>)
    ensures |calls| == a.Length && calls == Mountpoints(a[..])
    ensures retcode == 0 <==> forall k :: 0 <= k < a.Length ==> result(k) in {0, 1, 2}
    ensures retcode in {0, -1}
  {
    retcode, calls := 0, [];
    for k := 0 to a.Length
      invariant |calls| == k && forall i :: 0 <= i < k ==> calls[i] == a[i].mp
      invariant retcode == 0 <==> forall i :: 0 <= i < k ==> result(i) in {0, 1, 2}
      invariant retcode in {0, -1}
    {
      calls := calls + [a[k].mp];
      if result(k) !in {0, 1, 2} {
        retcode := -1;
      }
    }
  }

  /** The mountpoints in the order they are unmounted. */
  function UmountOrder(infos: seq<Info>): (r: seq<string>) {
    Mountpoints(SortBack(infos))
  }

  function Mountpoints(infos: seq<Info>): (r: seq<string>)
    ensures |r| == |infos| && forall k :: 0 <= k < |r| ==> r[k] == infos[k].mp
  {
    seq(|infos|, i requires 0 <= i < |infos| => infos[i].mp)
  }

  /** do_umount_recursive(): collect, sort, unmount. */
  method DoUmountRecursive(root: Option<string>, mindepth: int, entries: seq<Entry>, result: nat -> int)
    returns (retcode: int, calls: seq<string>)
    ensures var infos := Collect(EffectiveRoot(root), mindepth, entries);
            if infos.None? then retcode == -1 && calls == []
            else calls == UmountOrder(infos.value)
                 && (retcode == 0 <==> forall k :: 0 <= k < |calls| ==> result(k) in {0, 1, 2})
  {
    var ok, infos := ReadMountpoints(EffectiveRoot(root), mindepth, entries);
    if !ok {
      return -1, [];
    }
    retcode, calls := SortAndUmount(infos, result);
  }

  method SortAndUmount(list: seq<Info>, result: nat -> int) returns (retcode: int, calls: seq<string>)
    ensures calls == UmountOrder(list)
    ensures retcode == 0 <==> forall k :: 0 <= k < |calls| ==> result(k) in {0, 1, 2}
  {
    var a := new Info[|list|](i requires 0 <= i < |list| => list[i]);
    assert a[..] == list;
    UmountSort(a);
    retcode, calls := DoUmountAll(a, result);
  }
}
