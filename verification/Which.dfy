/** The program search of init/src/common/misc/which.c, which reuses one buffer for every candidate. */
module Which {
  import opened Wrappers
  import opened Chars
  import opened StrSplit
  import D = DynStr

  datatype Status = Found | NotFound | BadUsage | OutOfMemory

  // ---- the simple enumeration -----------------------------------------------------------------

  /** The root prefix, ending in a slash; empty if there is no root or it is "/". */
  function RootPrefix(root: Option<string>): (p: string)
    ensures p != "" ==> p[|p| - 1] == '/'
  {
    if root.None? || root.value == "" || root.value == "/" then ""
    else if root.value[|root.value| - 1] == '/' then root.value
    else root.value + "/"
  }

  function SkipSlashes(s: string): string {
    s[Span(s, {'/'}, true)..]
  }

  /** Under a root prefix, which ends in a slash already, leading slashes are dropped. */
  function Below(prefix: string, path: string): string {
    if prefix != "" then SkipSlashes(path) else path
  }

  /** `base`, then `base` with each non-empty suffix. */
  function Variants(base: string, suffixes: seq<string>): seq<string> {
    [base] + Suffixed(base, suffixes)
  }

  function Suffixed(base: string, suffixes: seq<string>): seq<string> {
    if suffixes == [] then []
    else if suffixes[0] == "" then Suffixed(base, suffixes[1..])
    else [base + suffixes[0]] + Suffixed(base, suffixes[1..])
  }

  /** Every candidate path, directory by directory. */
  function Candidates(prefix: string, dirs: seq<string>, suffixes: seq<string>, name: string): seq<string> {
    if dirs == [] then []
    else
      var dir, rest := Below(prefix, dirs[0]), Candidates(prefix, dirs[1..], suffixes, name);
      if dir == "" then rest else Variants(prefix + dir + "/" + name, suffixes) + rest
  }

  type Check = string -> bool

  function FirstMatch(candidates: seq<string>, isExe: Check): Option<string> {
    if candidates == [] then None
    else if isExe(candidates[0]) then Some(candidates[0])
    else FirstMatch(candidates[1..], isExe)
  }

  /** It is the match with the least index, and None exactly if there is no match. */
  lemma {:induction false} FirstMatchIsFirst(candidates: seq<string>, isExe: Check, i: nat)
    requires i < |candidates|
    ensures FirstMatch(candidates, isExe).None? ==> !isExe(candidates[i])
    ensures isExe(candidates[i]) && (forall j :: 0 <= j < i ==> !isExe(candidates[j])) ==>
              FirstMatch(candidates, isExe) == Some(candidates[i])
  {
    if i > 0 && !isExe(candidates[0]) {
      FirstMatchIsFirst(candidates[1..], isExe, i - 1);
    }
  }

  lemma {:induction false} FirstMatchAppend(a: seq<string>, b: seq<string>, isExe: Check)
    ensures FirstMatch(a + b, isExe) == if FirstMatch(a, isExe).Some? then FirstMatch(a, isExe) else FirstMatch(b, isExe)
  {
    if a == [] {
      assert a + b == b;
    } else {
      assert (a + b)[1..] == a[1..] + b;
      FirstMatchAppend(a[1..], b, isExe);
    }
  }

  // ---- the search with one buffer -------------------------------------------------------------

  ghost predicate AllNoNul(ss: seq<string>) {
    forall i :: 0 <= i < |ss| ==> NoNul(ss[i])
  }

  /** The buffer holds its contents as a C string. */
  ghost predicate Ready(buf: D.DynStr)
    reads buf, buf.data
  {
    && buf.Valid() && buf.data != null && buf.currentSize < buf.data.Length && buf.data[buf.currentSize] == NUL
    && NoNul(buf.Contents())
  }

  /** Terminates the buffer and asks about the C string in it, whatever lies behind the terminator. */
  method Probe(buf: D.DynStr, isExe: Check) returns (ok: bool, hit: bool)
    requires buf.Valid() && NoNul(buf.Contents())
    modifies buf, buf.data
    ensures old(buf.allocations) <= buf.allocations <= old(buf.allocations) + 1
    ensures buf.Valid()
    ensures ok ==> buf.data != null && (buf.data == old(buf.data) || fresh(buf.data))
    ensures ok ==> buf.Contents() == old(buf.Contents()) && hit == isExe(buf.Contents())
    ensures ok ==> Ready(buf)
    ensures !ok ==> exists n :: old(buf.allocations) <= n < buf.allocations && buf.exhausted(n)
  {
    ok := buf.AppendNull();
    hit := false;
    if ok {
      CStringIs(buf.data[..], buf.Contents());
      hit := isExe(CString(buf.data[..]));
    }
  }

  /** Appends `tail` and probes. */
  method Extend(buf: D.DynStr, tail: string, isExe: Check) returns (st: Status)
    requires buf.Valid() && NoNul(buf.Contents()) && NoNul(tail)
    modifies buf, buf.data
    ensures old(buf.allocations) <= buf.allocations <= old(buf.allocations) + 2
    ensures buf.Valid() && st in {Found, NotFound, OutOfMemory}
    ensures st == OutOfMemory ==> exists n :: old(buf.allocations) <= n < buf.allocations && buf.exhausted(n)
    ensures st != OutOfMemory ==>
              && buf.data != null && (buf.data == old(buf.data) || fresh(buf.data))
              && buf.Contents() == old(buf.Contents()) + tail
              && (st == Found <==> isExe(buf.Contents()))
              && Ready(buf)
  {
    var ok := buf.AppendStrSimple(tail);
    if !ok {
      return OutOfMemory;
    }
    var hit;
    ok, hit := Probe(buf, isExe);
    return if !ok then OutOfMemory else if hit then Found else NotFound;
  }

  lemma SuffixStep(base: string, suffixes: seq<string>, k: nat, isExe: Check)
    requires k < |suffixes|
    ensures FirstMatch(Suffixed(base, suffixes[k..]), isExe) ==
            if suffixes[k] != "" && isExe(base + suffixes[k]) then Some(base + suffixes[k])
            else FirstMatch(Suffixed(base, suffixes[k + 1..]), isExe)
  {
    assert suffixes[k..][1..] == suffixes[k + 1..];
    FirstMatchCons(base + suffixes[k], Suffixed(base, suffixes[k + 1..]), isExe);
  }

  lemma FirstMatchCons(s: string, rest: seq<string>, isExe: Check)
    ensures FirstMatch([s] + rest, isExe) == if isExe(s) then Some(s) else FirstMatch(rest, isExe)
  {
    assert ([s] + rest)[1..] == rest;
  }

  method TryProgNameVariants(buf: D.DynStr, suffixes: seq<string>, name: string, isExe: Check) returns (st: Status)
    requires buf.Valid() && NoNul(buf.Contents()) && NoNul(name) && AllNoNul(suffixes)
    modifies buf, buf.data
    ensures old(buf.allocations) <= buf.allocations <= old(buf.allocations) + 2 + 2 * |suffixes|
    ensures buf.Valid() && (st != OutOfMemory ==> buf.data == old(buf.data) || fresh(buf.data))
    ensures var base := old(buf.Contents()) + name;
            var r := FirstMatch(Variants(base, suffixes), isExe);
            match st {
              case Found => r == Some(buf.Contents()) && Ready(buf)
              case NotFound => r == None && buf.Contents() == base
              case BadUsage => false
              case OutOfMemory => exists n :: old(buf.allocations) <= n < buf.allocations && buf.exhausted(n)
            }
  {
    ghost var base := buf.Contents() + name;
    FirstMatchCons(base, Suffixed(base, suffixes), isExe);
    st := Extend(buf, name, isExe);
    if st != NotFound {
      return;
    }
    st := TrySuffixes(buf, suffixes, base, isExe);
  }

  /** The buffer holds the bare name, to which it is cut back after every suffix. */
  method TrySuffixes(buf: D.DynStr, suffixes: seq<string>, ghost base: string, isExe: Check) returns (st: Status)
    requires buf.Valid() && buf.data != null && buf.Contents() == base && NoNul(base) && AllNoNul(suffixes)
    modifies buf, buf.data
    ensures old(buf.allocations) <= buf.allocations <= old(buf.allocations) + 2 * |suffixes|
    ensures buf.Valid() && (st != OutOfMemory ==> buf.data == old(buf.data) || fresh(buf.data))
    ensures var r := FirstMatch(Suffixed(base, suffixes), isExe);
            match st {
              case Found => r == Some(buf.Contents()) && Ready(buf)
              case NotFound => r == None && buf.Contents() == base
              case BadUsage => false
              case OutOfMemory => exists n :: old(buf.allocations) <= n < buf.allocations && buf.exhausted(n)
            }
  {
    ghost var r := FirstMatch(Suffixed(base, suffixes), isExe);
    var nameLen := buf.currentSize;
    assert suffixes[0..] == suffixes;
    for k := 0 to |suffixes|
      invariant buf.Valid() && buf.Contents() == base && (buf.data == old(buf.data) || fresh(buf.data))
      invariant old(buf.allocations) <= buf.allocations <= old(buf.allocations) + 2 * k
      invariant r == FirstMatch(Suffixed(base, suffixes[k..]), isExe)
    {
      SuffixStep(base, suffixes, k, isExe);
      if suffixes[k] != "" {
        st := Extend(buf, suffixes[k], isExe);
        if st != NotFound {
          return;
        }
      }
      buf.CutTo(nameLen);
    }
    return NotFound;
  }

  lemma DirStep(prefix: string, dirs: seq<string>, k: nat, suffixes: seq<string>, name: string, isExe: Check)
    requires k < |dirs|
    ensures var dir := Below(prefix, dirs[k]);
            var rest := FirstMatch(Candidates(prefix, dirs[k + 1..], suffixes, name), isExe);
            var here := FirstMatch(Variants(prefix + dir + "/" + name, suffixes), isExe);
            FirstMatch(Candidates(prefix, dirs[k..], suffixes, name), isExe) ==
              if dir != "" && here.Some? then here else rest
  {
    assert dirs[k..][1..] == dirs[k + 1..];
    FirstMatchAppend(Variants(prefix + Below(prefix, dirs[k]) + "/" + name, suffixes),
                     Candidates(prefix, dirs[k + 1..], suffixes, name), isExe);
  }

  /** One directory: the buffer goes from the prefix to prefix, directory, slash, and the variants. */
  method TryDir(buf: D.DynStr, dir: string, suffixes: seq<string>, name: string, isExe: Check) returns (st: Status)
    requires buf.Valid() && NoNul(buf.Contents()) && NoNul(name) && AllNoNul(suffixes) && NoNul(dir)
    modifies buf, buf.data
    ensures old(buf.allocations) <= buf.allocations <= old(buf.allocations) + 4 + 2 * |suffixes|
    ensures buf.Valid() && (st != OutOfMemory ==> buf.data == old(buf.data) || fresh(buf.data))
    ensures var prefix := old(buf.Contents());
            var r := FirstMatch(Variants(prefix + dir + "/" + name, suffixes), isExe);
            match st {
              case Found => r == Some(buf.Contents()) && Ready(buf)
              case NotFound => r == None && |prefix| <= |buf.Contents()| && buf.Contents()[..|prefix|] == prefix
              case BadUsage => false
              case OutOfMemory => exists n :: old(buf.allocations) <= n < buf.allocations && buf.exhausted(n)
            }
  {
    ghost var prefix := buf.Contents();
    var ok := buf.AppendStrSimple(dir);
    if !ok {
      return OutOfMemory;
    }
    ok := buf.AppendChar('/');
    if !ok {
      return OutOfMemory;
    }
    assert buf.Contents() == prefix + dir + "/";
    st := TryProgNameVariants(buf, suffixes, name, isExe);
  }

  /** How many allocations a search in that many directories with that many suffixes makes at most. */
  function Budget(dirs: nat, suffixes: nat): nat {
    if dirs == 0 then 0 else Budget(dirs - 1, suffixes) + 4 + 2 * suffixes
  }

  lemma {:induction false} BudgetGrows(fewer: nat, dirs: nat, suffixes: nat)
    requires fewer <= dirs
    ensures Budget(fewer, suffixes) <= Budget(dirs, suffixes)
    decreases dirs
  {
    if fewer < dirs {
      BudgetGrows(fewer, dirs - 1, suffixes);
    }
  }

  /** The first match in one directory, if it counts for anything. */
  function InDir(prefix: string, dir: string, suffixes: seq<string>, name: string, isExe: Check): Option<string> {
    var path := Below(prefix, dir);
    if path == "" then None else FirstMatch(Variants(prefix + path + "/" + name, suffixes), isExe)
  }

  /** The first match in the directories from number `k` on. */
  function SearchFrom(prefix: string, dirs: seq<string>, k: nat, suffixes: seq<string>, name: string, isExe: Check)
    : Option<string>
    requires k <= |dirs|
    decreases |dirs| - k
  {
    if k == |dirs| then None
    else
      var here := InDir(prefix, dirs[k], suffixes, name, isExe);
      if here.Some? then here else SearchFrom(prefix, dirs, k + 1, suffixes, name, isExe)
  }

  lemma {:induction false} SearchIsFirstMatch(prefix: string, dirs: seq<string>, k: nat, suffixes: seq<string>, name: string,
                                             isExe: Check)
    requires k <= |dirs|
    ensures SearchFrom(prefix, dirs, k, suffixes, name, isExe) ==
            FirstMatch(Candidates(prefix, dirs[k..], suffixes, name), isExe)
    decreases |dirs| - k
  {
    if k < |dirs| {
      DirStep(prefix, dirs, k, suffixes, name, isExe);
      SearchIsFirstMatch(prefix, dirs, k + 1, suffixes, name, isExe);
    }
  }

  /** The loop over the search path; `buf` holds the root prefix and is cut back to it every time. */
  method SearchDirs(buf: D.DynStr, dirs: seq<string>, suffixes: seq<string>, name: string, isExe: Check)
    returns (st: Status)
    requires buf.Valid() && NoNul(buf.Contents()) && NoNul(name) && AllNoNul(suffixes) && AllNoNul(dirs)
    modifies buf, buf.data
    ensures old(buf.allocations) <= buf.allocations <= old(buf.allocations) + Budget(|dirs|, |suffixes|)
    ensures buf.Valid()
    ensures var r := SearchFrom(old(buf.Contents()), dirs, 0, suffixes, name, isExe);
            match st {
              case Found => r == Some(buf.Contents()) && Ready(buf)
              case NotFound => r == None
              case BadUsage => false
              case OutOfMemory => exists n :: old(buf.allocations) <= n < buf.allocations && buf.exhausted(n)
            }
  {
    ghost var prefix := buf.Contents();
    ghost var r := SearchFrom(prefix, dirs, 0, suffixes, name, isExe);
    var prefixLen := buf.currentSize;
    for k := 0 to |dirs|
      invariant buf.Valid() && buf.Contents() == prefix && (buf.data == old(buf.data) || fresh(buf.data))
      invariant old(buf.allocations) <= buf.allocations <= old(buf.allocations) + Budget(k, |suffixes|)
      invariant r == SearchFrom(prefix, dirs, k, suffixes, name, isExe)
    {
      BudgetGrows(k + 1, |dirs|, |suffixes|);
      st := TryPath(buf, dirs[k], prefixLen, suffixes, name, isExe);
      if st != NotFound {
        return;
      }
    }
    return NotFound;
  }

  method NameInSearchPath(buf: D.DynStr, dirs: seq<string>, suffixes: seq<string>, name: string, isExe: Check)
    returns (st: Status)
    requires buf.Valid() && NoNul(buf.Contents()) && NoNul(name) && AllNoNul(suffixes) && AllNoNul(dirs)
    modifies buf, buf.data
    ensures old(buf.allocations) <= buf.allocations <= old(buf.allocations) + Budget(|dirs|, |suffixes|)
    ensures buf.Valid()
    ensures var r := FirstMatch(Candidates(old(buf.Contents()), dirs, suffixes, name), isExe);
            match st {
              case Found => r == Some(buf.Contents()) && Ready(buf)
              case NotFound => r == None
              case BadUsage => false
              case OutOfMemory => exists n :: old(buf.allocations) <= n < buf.allocations && buf.exhausted(n)
            }
  {
    SearchIsFirstMatch(buf.Contents(), dirs, 0, suffixes, name, isExe);
    assert dirs[0..] == dirs;
    st := SearchDirs(buf, dirs, suffixes, name, isExe);
  }

  /** One round of that loop: the directory without the slashes the root prefix makes superfluous. */
  method TryPath(buf: D.DynStr, dir: string, prefixLen: nat, suffixes: seq<string>, name: string, isExe: Check)
    returns (st: Status)
    requires buf.Valid() && NoNul(buf.Contents()) && NoNul(name) && AllNoNul(suffixes) && NoNul(dir)
    requires prefixLen == |buf.Contents()|
    modifies buf, buf.data
    ensures old(buf.allocations) <= buf.allocations <= old(buf.allocations) + 4 + 2 * |suffixes|
    ensures buf.Valid() && (st != OutOfMemory ==> buf.data == old(buf.data) || fresh(buf.data))
    ensures var prefix := old(buf.Contents());
            var r := InDir(prefix, dir, suffixes, name, isExe);
            match st {
              case Found => r == Some(buf.Contents()) && Ready(buf)
              case NotFound => r == None && buf.Contents() == prefix
              case BadUsage => false
              case OutOfMemory => exists n :: old(buf.allocations) <= n < buf.allocations && buf.exhausted(n)
            }
  {
    var path := dir;
    if prefixLen > 0 {
      path := SkipSlashes(path);
    }
    if path != "" {
      st := TryDir(buf, path, suffixes, name, isExe);
      if st != NotFound {
        return;
      }
    }
    buf.CutTo(prefixLen);
    return NotFound;
  }

  // ---- the whole lookup -----------------------------------------------------------------------

  const SEPARATORS: Delims := {':'}

  function SplitList(s: Option<string>): seq<string> {
    if s.None? then [] else Tokens(s.value, SEPARATORS)
  }

  lemma {:induction false} FromIsNoNul(t: Token, d: Delims)
    requires t.Token? ==> NoNul(t.text) && NoNul(t.rest)
    ensures AllNoNul(From(t, d))
    decreases if t.NoToken? then 0 else 1 + |t.rest|
  {
    if t.Token? {
      FromIsNoNul(Strtok(t.rest, d), d);
    }
  }

  /** The paths a lookup tries, in order; None if it is called wrongly. */
  function Tried(searchPath: Option<string>, pathext: Option<string>, root: Option<string>, name: string)
    : Option<seq<string>>
  {
    var prefix := RootPrefix(root);
    if name == "" then None
    else if name[0] == '/' then
      var below := Below(prefix, name);
      if below == "" then None else Some(Variants(prefix + below, SplitList(pathext)))
    else if searchPath.None? then None
    else Some(Candidates(prefix, SplitList(searchPath), SplitList(pathext), name))
  }

  lemma ListIsNoNul(s: Option<string>)
    requires s.Some? ==> NoNul(s.value)
    ensures AllNoNul(SplitList(s))
  {
    if s.Some? {
      FromIsNoNul(Strtok(s.value, SEPARATORS), SEPARATORS);
    }
  }

  /** Starts the buffer with the root prefix. */
  method InitFspath(root: Option<string>, exhausted: nat -> bool) returns (buf: D.DynStr, ok: bool)
    requires root.Some? ==> NoNul(root.value)
    ensures fresh(buf) && buf.Valid() && buf.exhausted == exhausted
    ensures ok ==> buf.data != null && fresh(buf.data) && buf.Contents() == RootPrefix(root) && NoNul(buf.Contents())
    ensures buf.allocations <= 3 && (!ok ==> exists n :: 0 <= n < 3 && exhausted(n))
  {
    buf := new D.DynStr(64, exhausted);
    ok := buf.data != null;
    if ok && root.Some? && root.value != "" && root.value != "/" {
      ok := AppendRoot(buf, root.value);
    }
  }

  method AppendRoot(buf: D.DynStr, root: string) returns (ok: bool)
    requires buf.Valid() && buf.data != null && buf.Contents() == "" && NoNul(root) && root != "" && root != "/"
    modifies buf, buf.data
    ensures old(buf.allocations) <= buf.allocations <= old(buf.allocations) + 2
    ensures buf.Valid()
    ensures !ok ==> exists n :: old(buf.allocations) <= n < buf.allocations && buf.exhausted(n)
    ensures ok ==> buf.data != null && (buf.data == old(buf.data) || fresh(buf.data))
    ensures ok ==> buf.Contents() == RootPrefix(Some(root)) && NoNul(buf.Contents())
  {
    ok := buf.AppendStrSimple(root);
    if ok {
      ok := EnsureSlash(buf, root);
    }
  }

  method EnsureSlash(buf: D.DynStr, ghost root: string) returns (ok: bool)
    requires buf.Valid() && buf.data != null && buf.Contents() == root && root != "" && NoNul(root)
    modifies buf, buf.data
    ensures old(buf.allocations) <= buf.allocations <= old(buf.allocations) + 1
    ensures buf.Valid()
    ensures !ok ==> exists n :: old(buf.allocations) <= n < buf.allocations && buf.exhausted(n)
    ensures ok ==> buf.data != null && (buf.data == old(buf.data) || fresh(buf.data)) && NoNul(buf.Contents())
    ensures ok ==> buf.Contents() == if root[|root| - 1] == '/' then root else root + "/"
  {
    ok := true;
    assert buf.data[|root| - 1] == buf.Contents()[|root| - 1];
    if buf.data[buf.currentSize - 1] != '/' {
      ok := buf.AppendChar('/');
    }
  }

  /** _locate_progam(): finds exactly the first match of the enumeration, or reports that there is none. */
  method LocateProgram(searchPath: Option<string>, pathext: Option<string>, root: Option<string>, name: string,
                       isExe: Check, exhausted: nat -> bool)
    returns (st: Status, path: Option<string>)
    requires NoNul(name) && (searchPath.Some? ==> NoNul(searchPath.value))
    requires (pathext.Some? ==> NoNul(pathext.value)) && (root.Some? ==> NoNul(root.value))
    ensures st == OutOfMemory ==>
              exists n :: 0 <= n < 3 + Budget(|SplitList(searchPath)| + 1, |SplitList(pathext)|) && exhausted(n)
    ensures st == BadUsage ==> Tried(searchPath, pathext, root, name).None?
    ensures var tried := Tried(searchPath, pathext, root, name);
            && (st == Found ==> tried.Some? && path.Some? && FirstMatch(tried.value, isExe) == path)
            && (st == NotFound ==> tried.Some? && FirstMatch(tried.value, isExe) == None)
            && (st != Found ==> path == None)
  {
    path := None;
    if name == "" {
      return BadUsage, None;
    }
    var buf, ok := InitFspath(root, exhausted);
    if !ok {
      return OutOfMemory, None;
    }
    var suffixes := SplitList(pathext);
    ghost var dirs := |SplitList(searchPath)|;
    BudgetGrows(dirs, dirs + 1, |suffixes|);
    BudgetGrows(1, dirs + 1, |suffixes|);
    ListIsNoNul(pathext);
    if name[0] == '/' {
      var effective := if buf.currentSize > 0 then SkipSlashes(name) else name;
      if effective == "" {
        return BadUsage, None;
      }
      st := TryProgNameVariants(buf, suffixes, effective, isExe);
    } else if searchPath.None? {
      return BadUsage, None;
    } else {
      ListIsNoNul(searchPath);
      st := NameInSearchPath(buf, SplitList(searchPath), suffixes, name, isExe);
    }
    if st == Found {
      CStringIs(buf.data[..], buf.Contents());
      var d := buf.Unref();
      path := Some(CString(d[..]));
    }
  }

  // ---- what is tried ----------------------------------------------------------------------------

  /** Directories are tried in order, each with all its variants before the next. */
  lemma {:induction false} CandidatesInOrder(prefix: string, a: seq<string>, b: seq<string>, suffixes: seq<string>,
                                            name: string)
    ensures Candidates(prefix, a + b, suffixes, name) ==
            Candidates(prefix, a, suffixes, name) + Candidates(prefix, b, suffixes, name)
  {
    if a == [] {
      assert a + b == b;
    } else {
      assert (a + b)[1..] == a[1..] + b;
      CandidatesInOrder(prefix, a[1..], b, suffixes, name);
    }
  }

  /** What one directory contributes: with a root its leading slashes go, and an empty one counts for nothing. */
  lemma CandidatesOfOne(prefix: string, dir: string, suffixes: seq<string>, name: string)
    ensures prefix == "" && dir != "" ==>
              Candidates(prefix, [dir], suffixes, name) == Variants(dir + "/" + name, suffixes)
    ensures prefix != "" && dir != "" && dir[0] != '/' ==>
              Candidates(prefix, [dir], suffixes, name) == Variants(prefix + dir + "/" + name, suffixes)
    ensures prefix != "" ==>
              Candidates(prefix, ["/" + dir], suffixes, name) == Candidates(prefix, [dir], suffixes, name)
    ensures Candidates(prefix, [""], suffixes, name) == []
  {
    assert [dir][1..] == [] && ["/" + dir][1..] == [] && [""][1..] == [];
    assert ("/" + dir)[1..] == dir;
    var n := Span(dir, {'/'}, true);
    assert ("/" + dir)[1 + n..] == dir[n..];
    assert dir != "" && dir[0] != '/' ==> n == 0 && dir[0..] == dir;
    assert "" + dir == dir;
  }

  /** The bare name comes first, then each suffix in order; empty ones do not count. */
  lemma VariantsInOrder(base: string, suffix: string, suffixes: seq<string>)
    ensures Variants(base, []) == [base]
    ensures Variants(base, suffixes + [suffix]) == Variants(base, suffixes) + if suffix == "" then [] else [base + suffix]
  {
    SuffixedOneMore(base, suffix, suffixes);
  }

  lemma {:induction false} SuffixedOneMore(base: string, suffix: string, suffixes: seq<string>)
    ensures Suffixed(base, suffixes + [suffix]) == Suffixed(base, suffixes) + if suffix == "" then [] else [base + suffix]
  {
    if suffixes == [] {
      assert suffixes + [suffix] == [suffix] && [suffix][1..] == [];
    } else {
      assert (suffixes + [suffix])[1..] == suffixes[1..] + [suffix];
      SuffixedOneMore(base, suffix, suffixes[1..]);
    }
  }

  /** A root that matters, with exactly one slash behind it if it has none. */
  predicate StartsWithRoot(root: Option<string>, path: string) {
    root.Some? && root.value != "" && root.value != "/" ==>
      root.value <= path && |root.value| < |path|
      && (root.value[|root.value| - 1] == '/' || (root.value + "/" <= path))
  }

  /** Every path in the list lies under `prefix`. */
  ghost predicate AllUnder(prefix: string, paths: seq<string>) {
    forall i :: 0 <= i < |paths| ==> prefix <= paths[i] && |prefix| < |paths[i]|
  }

  lemma {:induction false} SuffixedUnder(prefix: string, rest: string, suffixes: seq<string>)
    requires rest != ""
    ensures AllUnder(prefix, Suffixed(prefix + rest, suffixes))
  {
    if suffixes != [] {
      SuffixedUnder(prefix, rest, suffixes[1..]);
      assert (prefix + rest + suffixes[0])[..|prefix|] == prefix;
    }
  }

  lemma VariantsUnder(prefix: string, rest: string, suffixes: seq<string>)
    requires rest != ""
    ensures AllUnder(prefix, Variants(prefix + rest, suffixes))
  {
    SuffixedUnder(prefix, rest, suffixes);
    assert (prefix + rest)[..|prefix|] == prefix;
  }

  lemma AllUnderAppend(prefix: string, a: seq<string>, b: seq<string>)
    requires AllUnder(prefix, a) && AllUnder(prefix, b)
    ensures AllUnder(prefix, a + b)
  {
  }

  lemma {:induction false} CandidatesUnder(prefix: string, dirs: seq<string>, suffixes: seq<string>, name: string)
    ensures AllUnder(prefix, Candidates(prefix, dirs, suffixes, name))
  {
    if dirs != [] {
      var dir, rest := Below(prefix, dirs[0]), Candidates(prefix, dirs[1..], suffixes, name);
      CandidatesUnder(prefix, dirs[1..], suffixes, name);
      if dir != "" {
        assert prefix + (dir + "/" + name) == prefix + dir + "/" + name;
        VariantsUnder(prefix, dir + "/" + name, suffixes);
        AllUnderAppend(prefix, Variants(prefix + dir + "/" + name, suffixes), rest);
      }
    }
  }

  lemma RootPrefixIsRoot(root: Option<string>, path: string)
    requires RootPrefix(root) <= path && |RootPrefix(root)| < |path|
    ensures StartsWithRoot(root, path)
  {
  }

  /** Nothing outside the root is ever tried. */
  lemma TriedUnderRoot(searchPath: Option<string>, pathext: Option<string>, root: Option<string>, name: string, i: nat)
    requires var tried := Tried(searchPath, pathext, root, name); tried.Some? && i < |tried.value|
    ensures StartsWithRoot(root, Tried(searchPath, pathext, root, name).value[i])
  {
    var prefix, suffixes := RootPrefix(root), SplitList(pathext);
    if name[0] == '/' {
      VariantsUnder(prefix, Below(prefix, name), suffixes);
    } else {
      CandidatesUnder(prefix, SplitList(searchPath), suffixes, name);
    }
    RootPrefixIsRoot(root, Tried(searchPath, pathext, root, name).value[i]);
  }

  lemma SkipOneSlash(name: string)
    requires name == "" || name[0] != '/'
    ensures SkipSlashes("/" + name) == name
  {
    var s := "/" + name;
    assert s[1..] == name && Span(name, {'/'}, true) == 0;
    assert Span(s, {'/'}, true) == 1;
  }

  /** An absolute name is not searched for: without a root that matters it is tried as it is. */
  lemma AbsoluteNames(searchPath: Option<string>, pathext: Option<string>, root: Option<string>, name: string)
    requires root.None? || root.value == "" || root.value == "/"
    ensures Tried(searchPath, pathext, root, "/" + name) == Some(Variants("/" + name, SplitList(pathext)))
  {
    assert "" + ("/" + name) == "/" + name;
  }

  /** With a root it is tried below it, joined by one slash. */
  lemma AbsoluteNamesBelow(searchPath: Option<string>, pathext: Option<string>, root: string, name: string)
    requires root != "" && root[|root| - 1] != '/' && name != "" && name[0] != '/'
    ensures Tried(searchPath, pathext, Some(root), "/" + name) == Some(Variants(root + "/" + name, SplitList(pathext)))
  {
    SkipOneSlash(name);
    assert RootPrefix(Some(root)) == root + "/";
  }

  /** There is nothing to try without a name, for "/" below a root, or for a bare name without a search path. */
  lemma NothingToTry(searchPath: Option<string>, pathext: Option<string>, root: string, name: string)
    requires root != "" && root[|root| - 1] != '/' && name != "" && name[0] != '/'
    ensures Tried(searchPath, pathext, Some(root), "") == None && Tried(None, pathext, Some(root), name) == None
    ensures Tried(searchPath, pathext, Some(root), "/") == None
  {
    SkipOneSlash("");
    assert "/" + "" == "/" && RootPrefix(Some(root)) == root + "/";
  }

  /** A bare name is looked for in the directories of the search path. */
  lemma BareNames(searchPath: string, pathext: Option<string>, root: Option<string>, name: string)
    requires name != "" && name[0] != '/'
    ensures Tried(Some(searchPath), pathext, root, name) ==
            Some(Candidates(RootPrefix(root), Words(searchPath, {':'}), SplitList(pathext), name))
    ensures pathext.Some? ==> SplitList(pathext) == Words(pathext.value, {':'})
  {
    TokensAreWords(searchPath, {':'});
    if pathext.Some? {
      TokensAreWords(pathext.value, {':'});
    }
  }
}
