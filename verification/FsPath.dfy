/** Path normalisation and the downward walk of init/src/common/fs/fspath.c. */
module FsPath {
  import opened Wrappers
  import opened Chars
  import opened StrSplit

  const SLASH: Delims := {'/'}

  predicate IsAbsolute(s: string) {
    s != "" && s[0] == '/'
  }

  function Components(s: string): seq<string> {
    Words(s, SLASH)
  }

  // ---- stripping ----------------------------------------------------------------------------------

  /** Every run of slashes becomes one, a run at the end none. */
  function Collapse(s: string): (r: string)
    ensures |r| <= |s|
    decreases |s|
  {
    if s == "" then ""
    else if s[0] != '/' then [s[0]] + Collapse(s[1..])
    else
      var rest := s[Span(s, SLASH, true)..];
      if rest == "" then "" else "/" + Collapse(rest)
  }

  function Strip(s: string): string {
    if Collapse(s) == "" && IsAbsolute(s) then "/" else Collapse(s)
  }

  /** `buf` holds the C string `t`, terminator included. */
  ghost predicate Stores(buf: string, t: string) {
    NoNul(t) && |t| < |buf| && buf[..|t|] == t && buf[|t|] == NUL
  }

  /** fspath_strip(): copies into a buffer with one reading and one writing index; None stands for NULL. */
  method FspathStrip(path: Option<string>, outOfMemory: bool) returns (buf: array?<char>)
    requires path.Some? ==> NoNul(path.value)
    ensures buf == null <==> path.None? || path.value == "" || outOfMemory
    ensures buf != null ==> fresh(buf) && Stores(buf[..], Strip(path.value))
  {
    if path.None? || path.value == "" || outOfMemory {
      return null;
    }
    var s := path.value;
    var b := new char[|s| + 1];
    var to := CollapseInto(s, b);
    b[to] := NUL;
    assert b[..to] == Collapse(s);
    CollapseNoNul(s);
    if b[0] == NUL && s[0] == '/' {
      b[0], b[1] := '/', NUL;
    }
    return b;
  }

  /** The copy loop; returns how much was written. */
  method CollapseInto(s: string, b: array<char>) returns (to: nat)
    requires b.Length == |s| + 1
    modifies b
    ensures to <= |s| && b[..to] == Collapse(s)
  {
    var from := 0;
    to := 0;
    ghost var done := "";
    assert s[0..] == s;
    while from < |s|
      invariant 0 <= to <= from <= |s|
      invariant |done| == to && forall i :: 0 <= i < to ==> b[i] == done[i]
      invariant done + Collapse(s[from..]) == Collapse(s)
      decreases |s| - from
    {
      if s[from] == '/' {
        var n := SkipRun(s, from);
        CollapseSlashes(s, from, n, done);
        from := n;
        if from < |s| {
          b[to], to := '/', to + 1;
          done := done + "/";
        }
      } else {
        CollapseOther(s, from, done);
        b[to], to := s[from], to + 1;
        done := done + [s[from]];
        from := from + 1;
      }
    }
    assert s[|s|..] == "" && done + "" == done;
    assert b[..to] == done;
  }

  lemma {:induction false} CollapseNoNul(s: string)
    requires NoNul(s)
    ensures NoNul(Collapse(s))
    decreases |s|
  {
    if s != "" {
      CollapseNoNul(if s[0] != '/' then s[1..] else s[Span(s, SLASH, true)..]);
    }
  }

  lemma CollapseSlashes(s: string, from: nat, n: nat, done: string)
    requires from < |s| && s[from] == '/' && n == from + Span(s[from..], SLASH, true)
    ensures done + Collapse(s[from..]) == (if n < |s| then done + "/" else done) + Collapse(s[n..])
  {
    assert s[from..][n - from..] == s[n..];
    assert Collapse(s[from..]) == if n < |s| then "/" + Collapse(s[n..]) else "";
  }

  lemma CollapseOther(s: string, from: nat, done: string)
    requires from < |s| && s[from] != '/'
    ensures done + Collapse(s[from..]) == (done + [s[from]]) + Collapse(s[from + 1..])
  {
    assert s[from..][1..] == s[from + 1..];
    assert Collapse(s[from..]) == [s[from]] + Collapse(s[from + 1..]);
  }

  method SkipRun(s: string, from: nat) returns (n: nat)
    requires from < |s| && s[from] == '/'
    ensures n == from + Span(s[from..], SLASH, true) && from < n <= |s|
  {
    n := from;
    while n < |s| && s[n] == '/'
      invariant from <= n <= |s|
      invariant forall i :: from <= i < n ==> s[i] == '/'
    {
      n := n + 1;
    }
    ghost var k := Span(s[from..], SLASH, true);
    assert n - from < |s[from..]| ==> s[from..][n - from] == s[n];
    assert forall i :: 0 <= i < n - from ==> s[from..][i] == s[from + i];
  }

  // ---- the normal form ------------------------------------------------------------------------------

  function JoinSlash(ws: seq<string>): string {
    if ws == [] then "" else if |ws| == 1 then ws[0] else ws[0] + "/" + JoinSlash(ws[1..])
  }

  /** The one way to write a path with these components. */
  function Normal(absolute: bool, ws: seq<string>): string {
    (if absolute then "/" else "") + JoinSlash(ws)
  }

  lemma WordsFront(c: char, u: string)
    requires c != '/'
    ensures var ws := Components(u);
            if u == "" || IsAbsolute(u) then Components([c] + u) == [[c]] + ws
            else ws != [] && Components([c] + u) == [[c] + ws[0]] + ws[1..]
  {
    assert ([c] + u)[1..] == u;
    var f := Fields(u, SLASH);
    assert ([[c] + f[0]] + f[1..])[1..] == f[1..];
    assert [c] + "" == [c];
    assert (u == "" || IsAbsolute(u)) <==> f[0] == "";
  }

  lemma JoinSlashFront(c: char, ws: seq<string>)
    requires ws != []
    ensures JoinSlash([[c] + ws[0]] + ws[1..]) == [c] + JoinSlash(ws)
  {
    JoinSlashCons([c] + ws[0], ws[1..]);
    JoinSlashCons(ws[0], ws[1..]);
    assert [ws[0]] + ws[1..] == ws;
    Regroup3([c], ws[0], if ws[1..] == [] then "" else "/", JoinSlash(ws[1..]));
  }

  lemma Regroup3(a: string, b: string, c: string, d: string)
    ensures (a + b) + c + d == a + (b + c + d)
  {
  }

  lemma JoinSlashCons(w: string, ws: seq<string>)
    ensures JoinSlash([w] + ws) == w + (if ws == [] then "" else "/") + JoinSlash(ws)
  {
    assert ([w] + ws)[1..] == ws;
  }

  /** The collapsed text in terms of the components. */
  function Collapsed(s: string): string {
    (if IsAbsolute(s) && Components(s) != [] then "/" else "") + JoinSlash(Components(s))
  }

  lemma {:induction false} CollapseIsJoin(s: string)
    ensures Collapse(s) == Collapsed(s)
    decreases |s|
  {
    if s == "" {
      WordsOfWord("", SLASH);
    } else if s[0] == '/' {
      CollapseIsJoin(s[Span(s, SLASH, true)..]);
      CollapsedSlashes(s);
    } else {
      CollapseIsJoin(s[1..]);
      CollapsedFront(s[0], s[1..]);
      assert s == [s[0]] + s[1..];
    }
  }

  lemma CollapsedSlashes(s: string)
    requires IsAbsolute(s)
    ensures var rest := s[Span(s, SLASH, true)..]; Collapsed(s) == if rest == "" then "" else "/" + Collapsed(rest)
  {
    var n := Span(s, SLASH, true);
    WordsSkip(s, SLASH, n);
    if s[n..] == "" {
      WordsOfWord("", SLASH);
    } else {
      WordsNotEmpty(s[n..]);
    }
  }

  lemma CollapsedFront(c: char, u: string)
    requires c != '/'
    ensures Collapsed([c] + u) == [c] + Collapsed(u)
  {
    WordsFront(c, u);
    var ws := Components(u);
    if u == "" {
      WordsOfWord("", SLASH);
      JoinSlashCons([c], ws);
    } else if IsAbsolute(u) {
      JoinSlashCons([c], ws);
    } else {
      JoinSlashFront(c, ws);
    }
  }

  lemma WordsNotEmpty(s: string)
    requires s != "" && s[0] != '/'
    ensures Components(s) != []
  {
    WordsFront(s[0], s[1..]);
    assert s == [s[0]] + s[1..];
  }

  /** Stripping yields the normal form of the path's components. */
  lemma StripIsNormal(s: string)
    ensures Strip(s) == Normal(IsAbsolute(s), Components(s))
  {
    CollapseIsJoin(s);
    if IsAbsolute(s) && Components(s) == [] {
      assert JoinSlash([]) == "";
    }
  }

  ghost predicate AreComponents(ws: seq<string>) {
    forall i :: 0 <= i < |ws| ==> ws[i] != "" && FreeOf(ws[i], SLASH)
  }

  lemma {:induction false} ComponentsOfJoin(ws: seq<string>)
    requires AreComponents(ws)
    ensures Components(JoinSlash(ws)) == ws
  {
    if ws == [] {
      WordsOfWord("", SLASH);
    } else {
      WordsOfWord(ws[0], SLASH);
      if |ws| > 1 {
        ComponentsOfJoin(ws[1..]);
        WordsCut(ws[0], '/', JoinSlash(ws[1..]), SLASH);
      }
    }
  }

  lemma ComponentsOfNormal(absolute: bool, ws: seq<string>)
    requires AreComponents(ws)
    ensures Components(Normal(absolute, ws)) == ws
    ensures absolute || ws != [] ==> IsAbsolute(Normal(absolute, ws)) == absolute
  {
    ComponentsOfJoin(ws);
    assert "" + JoinSlash(ws) == JoinSlash(ws);
    if absolute {
      WordsSkip(Normal(true, ws), SLASH, 1);
    } else if ws != [] {
      assert JoinSlash(ws)[0] == ws[0][0];
    }
  }

  lemma {:induction false} NonEmptyAreComponents(f: seq<string>)
    requires forall i :: 0 <= i < |f| ==> FreeOf(f[i], SLASH)
    ensures AreComponents(NonEmpty(f))
  {
    if f != [] {
      NonEmptyAreComponents(f[1..]);
    }
  }

  lemma {:induction false} FieldsAreSlashFree(s: string)
    ensures forall i :: 0 <= i < |Fields(s, SLASH)| ==> FreeOf(Fields(s, SLASH)[i], SLASH)
  {
    if s != "" {
      FieldsAreSlashFree(s[1..]);
    }
  }

  lemma ComponentsAreComponents(s: string)
    ensures AreComponents(Components(s))
  {
    FieldsAreSlashFree(s);
    NonEmptyAreComponents(Fields(s, SLASH));
  }

  /** No doubled slash, and no slash at the end. */
  ghost predicate Tidy(s: string) {
    && (forall i :: 0 < i < |s| ==> s[i] != '/' || s[i - 1] != '/')
    && (s != "" ==> s[|s| - 1] != '/')
  }

  lemma {:induction false} JoinIsTidy(ws: seq<string>)
    requires AreComponents(ws)
    ensures Tidy(JoinSlash(ws)) && !IsAbsolute(JoinSlash(ws))
  {
    if |ws| > 1 {
      JoinIsTidy(ws[1..]);
      var t := JoinSlash(ws[1..]);
      assert t[0] == ws[1][0];
      var r := ws[0] + "/" + t;
      forall i | 0 < i < |r|
        ensures r[i] != '/' || r[i - 1] != '/'
      {
        if i > |ws[0]| + 1 {
          assert r[i] == t[i - |ws[0]| - 1] && r[i - 1] == t[i - |ws[0]| - 2];
        }
      }
    }
  }

  lemma NormalIsTidy(absolute: bool, ws: seq<string>)
    requires AreComponents(ws)
    ensures Normal(absolute, ws) == "/" || Tidy(Normal(absolute, ws))
  {
    JoinIsTidy(ws);
    var j, r := JoinSlash(ws), Normal(absolute, ws);
    if absolute && j != "" {
      assert forall i :: 0 < i < |r| ==> r[i] == j[i - 1];
    } else if !absolute {
      assert r == j;
    }
  }

  /**
  Stripping keeps absoluteness and the component list, is idempotent, and leaves no doubled and
  no trailing slash, except that the root stays "/".
  */
  lemma StripNormalises(s: string)
    requires s != ""
    ensures IsAbsolute(Strip(s)) == IsAbsolute(s)
    ensures Components(Strip(s)) == Components(s)
    ensures Strip(Strip(s)) == Strip(s)
    ensures Strip(s) == "/" || Tidy(Strip(s))
  {
    var absolute, ws := IsAbsolute(s), Components(s);
    StripIsNormal(s);
    ComponentsAreComponents(s);
    if !absolute {
      WordsNotEmpty(s);
    }
    ComponentsOfNormal(absolute, ws);
    StripIsNormal(Normal(absolute, ws));
    NormalIsTidy(absolute, ws);
  }

  // ---- walking down ---------------------------------------------------------------------------------

  datatype Visit = Visit(path: string, basename: string)

  /** The next slash at or after `base`, or the length of `t`. */
  function NextSlash(t: string, base: nat): (n: nat)
    requires base <= |t|
    ensures base <= n <= |t|
  {
    base + Span(t[base..], SLASH, false)
  }

  /** The walk over `rest`, which follows `pre`: a visit at every slash, and one at the end. */
  function VisitsIn(pre: string, rest: string): seq<Visit>
    decreases |rest|
  {
    var n := Span(rest, SLASH, false);
    if n == |rest| then [Visit(pre + rest, rest)]
    else [Visit(pre + rest[..n], rest[..n])] + VisitsIn(pre + rest[..n + 1], rest[n + 1..])
  }

  function VisitsFrom(t: string, base: nat): seq<Visit>
    requires base <= |t|
  {
    VisitsIn(t[..base], t[base..])
  }

  function Visits(t: string): seq<Visit> {
    VisitsFrom(t, if IsAbsolute(t) then 1 else 0)
  }

  /** The visits made until one is answered with non-zero; `k` numbers the calls. */
  function Until(visits: seq<Visit>, k: nat, answer: (nat, Visit) -> int): seq<Visit>
    decreases visits
  {
    if visits == [] then []
    else if answer(k, visits[0]) != 0 then [visits[0]]
    else [visits[0]] + Until(visits[1..], k + 1, answer)
  }

  /** Cuts the buffer at `n` by writing a NUL there, looks at it, and puts the slash back. */
  method CutAt(buf: array<char>, base: nat, n: nat, ghost t: string) returns (v: Visit)
    requires Stores(buf[..], t) && base <= n < |t| && t[n] == '/'
    modifies buf
    ensures buf[..] == old(buf[..]) && v == Visit(t[..n], t[base..n])
  {
    ghost var before := buf[..];
    buf[n] := NUL;
    assert buf[..][..n] == t[..n];
    CStringIs(buf[..], t[..n]);
    assert buf[base..][..n - base] == t[base..n];
    CStringIs(buf[base..], t[base..n]);
    v := Visit(CString(buf[..]), CString(buf[base..]));
    buf[n] := '/';
    assert buf[..] == before;
  }

  method StrchrSlash(buf: array<char>, base: nat, ghost t: string) returns (n: nat, found: bool)
    requires Stores(buf[..], t) && base <= |t|
    ensures n == NextSlash(t, base) && found == (n < |t|)
    ensures found ==> t[n] == '/'
  {
    assert t == buf[..][..|t|];
    n := base;
    while buf[n] != '/' && buf[n] != NUL
      invariant base <= n <= |t|
      invariant forall i :: base <= i < n ==> t[i] != '/'
      decreases |t| - n
    {
      n := n + 1;
    }
    found := buf[n] == '/';
    ghost var u := t[base..];
    assert forall i :: 0 <= i < n - base ==> u[i] == t[base + i];
    assert n < |t| ==> u[n - base] == t[n];
  }

  /**
  fspath_downwards_do(): `answer` stands for the two callbacks, numbered call by call. The walk
  goes on until a call is answered with something other than 0.
  */
  method DownwardsDo(path: Option<string>, outOfMemory: bool, answer: (nat, Visit) -> int)
    returns (retcode: int, calls: seq<Visit>)
    requires path.Some? ==> NoNul(path.value)
    ensures path.None? || path.value == "" ==> retcode == 0 && calls == []
    ensures path.Some? && path.value != "" && outOfMemory ==> retcode == -1 && calls == []
    ensures path.Some? && path.value != "" && !outOfMemory ==>
              && calls == Until(Visits(Strip(path.value)), 0, answer)
              && calls != [] && retcode == answer(|calls| - 1, calls[|calls| - 1])
  {
    calls, retcode := [], 0;
    if path.None? || path.value == "" {
      return;
    }
    var buf := FspathStrip(path, outOfMemory);
    if buf == null {
      return -1, [];
    }
    retcode, calls := Walk(buf, answer, Strip(path.value));
  }

  /** What is still to be recorded when the walk stands at `base` and the next call is number `k`. */
  ghost function Owed(t: string, base: nat, k: nat, answer: (nat, Visit) -> int): seq<Visit>
    requires base <= |t|
  {
    Until(VisitsFrom(t, base), k, answer)
  }

  lemma VisitsAtSlash(t: string, base: nat)
    requires base <= |t| && NextSlash(t, base) < |t|
    ensures var n := NextSlash(t, base);
            VisitsFrom(t, base) == [Visit(t[..n], t[base..n])] + VisitsFrom(t, n + 1)
  {
    var n, rest := NextSlash(t, base), t[base..];
    assert rest[..n - base] == t[base..n] && t[..base] + t[base..n] == t[..n];
    assert t[..base] + rest[..n - base + 1] == t[..n + 1] && rest[n - base + 1..] == t[n + 1..];
  }

  lemma UntilCons(v: Visit, rest: seq<Visit>, k: nat, answer: (nat, Visit) -> int)
    ensures Until([v] + rest, k, answer) ==
            if answer(k, v) != 0 then [v] else [v] + Until(rest, k + 1, answer)
  {
    assert ([v] + rest)[1..] == rest;
  }

  /** A parent visit: the walk ends with it, or goes on behind the slash. */
  lemma OwedParent(t: string, base: nat, n: nat, v: Visit, calls: seq<Visit>, answer: (nat, Visit) -> int)
    requires base <= |t| && n == NextSlash(t, base) && n < |t| && v == Visit(t[..n], t[base..n])
    ensures var k := |calls|;
            calls + Owed(t, base, k, answer) ==
              if answer(k, v) != 0 then calls + [v] else (calls + [v]) + Owed(t, n + 1, k + 1, answer)
  {
    VisitsAtSlash(t, base);
    UntilCons(v, VisitsFrom(t, n + 1), |calls|, answer);
  }

  lemma OwedLast(t: string, base: nat, k: nat, answer: (nat, Visit) -> int)
    requires base <= |t| && NextSlash(t, base) == |t|
    ensures Owed(t, base, k, answer) == [Visit(t, t[base..])]
  {
    var v := Visit(t, t[base..]);
    assert t[..base] + t[base..] == t && [v][1..] == [];
    assert Until([v], k, answer) == [v];
  }

  /** The calls so far, and those owed unless one was answered with `retcode` other than 0, make up `total`. */
  ghost predicate Balanced(total: seq<Visit>, t: string, base: nat, calls: seq<Visit>, retcode: int,
                           answer: (nat, Visit) -> int)
  {
    && base <= |t|
    && total == (if retcode == 0 then calls + Owed(t, base, |calls|, answer) else calls)
    && (retcode != 0 ==> calls != [] && retcode == answer(|calls| - 1, calls[|calls| - 1]))
  }

  lemma BalancedAtFirst(t: string, base: nat, answer: (nat, Visit) -> int) returns (total: seq<Visit>)
    requires base == if IsAbsolute(t) then 1 else 0
    ensures total == Until(Visits(t), 0, answer) && Balanced(total, t, base, [], 0, answer)
  {
    total := Until(Visits(t), 0, answer);
    assert [] + total == total;
  }

  method ParentCall(buf: array<char>, base: nat, n: nat, calls: seq<Visit>, answer: (nat, Visit) -> int,
                    ghost t: string, ghost total: seq<Visit>)
    returns (retcode: int, after: seq<Visit>)
    requires Stores(buf[..], t) && base <= n < |t| && n == NextSlash(t, base) && t[n] == '/'
    requires Balanced(total, t, base, calls, 0, answer)
    modifies buf
    ensures buf[..] == old(buf[..]) && Balanced(total, t, n + 1, after, retcode, answer)
  {
    var v := CutAt(buf, base, n, t);
    OwedParent(t, base, n, v, calls, answer);
    retcode, after := answer(|calls|, v), calls + [v];
  }

  method FinalCall(buf: array<char>, base: nat, calls: seq<Visit>, answer: (nat, Visit) -> int,
                   ghost t: string, ghost total: seq<Visit>)
    returns (retcode: int, after: seq<Visit>)
    requires Stores(buf[..], t) && base <= |t| && NextSlash(t, base) == |t|
    requires Balanced(total, t, base, calls, 0, answer)
    ensures after == total && after != [] && retcode == answer(|after| - 1, after[|after| - 1])
  {
    var v := SeeAll(buf, base, t);
    OwedLast(t, base, |calls|, answer);
    retcode, after := answer(|calls|, v), calls + [v];
  }

  /** The parents, up to the last slash or the first call that is not answered with 0. */
  method WalkParents(buf: array<char>, start: nat, answer: (nat, Visit) -> int, ghost t: string, ghost total: seq<Visit>)
    returns (retcode: int, calls: seq<Visit>, base: nat)
    requires Stores(buf[..], t) && Balanced(total, t, start, [], 0, answer)
    modifies buf
    ensures Stores(buf[..], t) && Balanced(total, t, base, calls, retcode, answer)
    ensures retcode == 0 ==> NextSlash(t, base) == |t|
  {
    base := start;
    calls, retcode := [], 0;
    var delim, found := StrchrSlash(buf, base, t);
    while found && retcode == 0
      invariant Stores(buf[..], t) && Balanced(total, t, base, calls, retcode, answer)
      invariant delim == NextSlash(t, base) && found == (delim < |t|) && (found ==> t[delim] == '/')
      decreases |t| - base
    {
      retcode, calls := ParentCall(buf, base, delim, calls, answer, t, total);
      base := delim + 1;
      delim, found := StrchrSlash(buf, base, t);
    }
  }

  /** The walk from `start` on, with no call made yet. */
  method WalkFrom(buf: array<char>, start: nat, answer: (nat, Visit) -> int, ghost t: string, ghost total: seq<Visit>)
    returns (retcode: int, calls: seq<Visit>)
    requires Stores(buf[..], t) && Balanced(total, t, start, [], 0, answer)
    modifies buf
    ensures calls == total && calls != [] && retcode == answer(|calls| - 1, calls[|calls| - 1])
  {
    var base;
    retcode, calls, base := WalkParents(buf, start, answer, t, total);
    if retcode == 0 {
      retcode, calls := FinalCall(buf, base, calls, answer, t, total);
    }
  }

  method Walk(buf: array<char>, answer: (nat, Visit) -> int, ghost t: string) returns (retcode: int, calls: seq<Visit>)
    requires Stores(buf[..], t)
    modifies buf
    ensures calls == Until(Visits(t), 0, answer)
    ensures calls != [] && retcode == answer(|calls| - 1, calls[|calls| - 1])
  {
    assert t == buf[..][..|t|];
    var base := if buf[0] == '/' then 1 else 0;
    ghost var total := BalancedAtFirst(t, base, answer);
    retcode, calls := WalkFrom(buf, base, answer, t, total);
  }

  /** The whole path and its last component, as the final callback sees them. */
  method SeeAll(buf: array<char>, base: nat, ghost t: string) returns (v: Visit)
    requires Stores(buf[..], t) && base <= |t|
    ensures v == Visit(t, t[base..])
  {
    CStringIs(buf[..], t);
    assert buf[base..][..|t| - base] == t[base..];
    CStringIs(buf[base..], t[base..]);
    v := Visit(CString(buf[..]), CString(buf[base..]));
  }

  // ---- what the walk visits ---------------------------------------------------------------------------

  /** The visits of the components `ws` written after `pre`. */
  function VisitsOf(pre: string, ws: seq<string>): (v: seq<Visit>)
    ensures |v| == |ws|
    decreases ws
  {
    if ws == [] then []
    else [Visit(pre + ws[0], ws[0])] + VisitsOf(pre + ws[0] + "/", ws[1..])
  }

  lemma {:induction false} SpanOf(w: string, more: string)
    requires FreeOf(w, SLASH) && (more != "" ==> more[0] == '/')
    ensures Span(w + more, SLASH, false) == |w|
  {
    if w == "" {
      assert w + more == more;
    } else {
      assert (w + more)[1..] == w[1..] + more;
      SpanOf(w[1..], more);
    }
  }

  lemma {:induction false} WalkIsVisitsOf(pre: string, ws: seq<string>)
    requires AreComponents(ws) && ws != []
    ensures VisitsIn(pre, JoinSlash(ws)) == VisitsOf(pre, ws)
    decreases |ws|
  {
    var w := ws[0];
    if |ws| == 1 {
      SpanOf(w, "");
      assert w + "" == w;
      assert VisitsOf(pre + w + "/", ws[1..]) == [];
    } else {
      WalkIsVisitsOf(pre + w + "/", ws[1..]);
      WalkStep(pre, w, JoinSlash(ws[1..]));
    }
  }

  /** One stretch of the walk, up to the next slash. */
  lemma WalkStep(pre: string, w: string, more: string)
    requires FreeOf(w, SLASH)
    ensures VisitsIn(pre, w + "/" + more) == [Visit(pre + w, w)] + VisitsIn(pre + w + "/", more)
  {
    var rest := w + "/" + more;
    assert rest == w + ("/" + more);
    SpanOf(w, "/" + more);
    assert rest[..|w|] == w && rest[..|w| + 1] == w + "/" && rest[|w| + 1..] == more;
    assert pre + (w + "/") == pre + w + "/";
  }

  lemma {:induction false} VisitsOfAt(pre: string, ws: seq<string>, k: nat)
    requires k < |ws|
    ensures VisitsOf(pre, ws)[k] == Visit(pre + JoinSlash(ws[..k + 1]), ws[k])
    decreases k
  {
    if k == 0 {
      assert ws[..1] == [ws[0]];
    } else {
      VisitsOfAt(pre + ws[0] + "/", ws[1..], k - 1);
      assert ws[..k + 1] == [ws[0]] + ws[1..][..k];
      JoinSlashCons(ws[0], ws[1..][..k]);
      assert (pre + ws[0] + "/") + JoinSlash(ws[1..][..k]) == pre + (ws[0] + "/" + JoinSlash(ws[1..][..k]));
    }
  }

  /**
  A path with at least one component is walked through exactly its prefixes, parents before
  children, the path itself last, each with its last component.
  */
  lemma VisitsArePrefixes(s: string, k: nat)
    requires k < |Components(s)|
    ensures |Visits(Strip(s))| == |Components(s)|
    ensures Visits(Strip(s))[k] == Visit(Normal(IsAbsolute(s), Components(s)[..k + 1]), Components(s)[k])
  {
    var absolute, ws := IsAbsolute(s), Components(s);
    StripIsNormal(s);
    ComponentsAreComponents(s);
    ComponentsOfNormal(absolute, ws);
    var pre, t := if absolute then "/" else "", Strip(s);
    WalkIsVisitsOf(pre, ws);
    assert t[..|pre|] == pre && t[|pre|..] == JoinSlash(ws);
    VisitsOfAt(if absolute then "/" else "", ws, k);
  }

  /** A path without components is "/" in any spelling, and is visited once, as itself. */
  lemma RootIsVisitedOnce(s: string)
    requires s != "" && Components(s) == []
    ensures Strip(s) == "/" && Visits(Strip(s)) == [Visit("/", "")]
  {
    if !IsAbsolute(s) {
      WordsNotEmpty(s);
    }
    StripIsNormal(s);
    assert JoinSlash([]) == "" && "/"[1..] == "" && "/"[..1] == "/";
    assert VisitsIn("/", "") == [Visit("/" + "", "")];
  }
}
