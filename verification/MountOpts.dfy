/** Mount options, printed and parsed: init/src/common/fs/mount_opts.c. */
module MountOpts {
  import opened Wrappers
  import opened Chars
  import opened StrSplit

  /** The MS_ bits the code names, and all the others. */
  datatype Flag =
    | RdOnly | NoSuid | NoDev | NoExec | Synchronous | Remount | MandLock | DirSync | NoAtime | NoDirAtime
    | Bind | Move | Silent | RelAtime | StrictAtime | Unnamed(bit: nat)

  type Flags = set<Flag>

  const COMMA: Delims := {','}

  // ---- parsing ----------------------------------------------------------------------------------

  datatype Effect = Sets(flag: Flag) | Clears(flag: Flag) | Ignored | Unrecognised

  /** The option table, with "async" and "sync" the wrong way round as in the source. */
  function EffectOf(option: string): Effect {
    if option == "atime" then Clears(NoAtime)
    else if option == "noatime" then Sets(NoAtime)
    else if option == "auto" || option == "noauto" then Ignored
    else if option == "dev" then Clears(NoDev)
    else if option == "nodev" then Sets(NoDev)
    else if option == "diratime" then Clears(NoDirAtime)
    else if option == "nodiratime" then Sets(NoDirAtime)
    else if option == "exec" then Clears(NoExec)
    else if option == "noexec" then Sets(NoExec)
    else if option == "mand" then Sets(MandLock)
    else if option == "nomand" then Clears(MandLock)
    else if option == "relatime" then Sets(RelAtime)
    else if option == "norelatime" then Clears(RelAtime)
    else if option == "strictatime" then Sets(StrictAtime)
    else if option == "nostrictatime" then Clears(StrictAtime)
    else if option == "suid" then Clears(NoSuid)
    else if option == "nosuid" then Sets(NoSuid)
    else if option == "silent" then Sets(Silent)
    else if option == "loud" then Clears(Silent)
    else if option == "remount" then Sets(Remount)
    else if option == "ro" then Sets(RdOnly)
    else if option == "rw" then Clears(RdOnly)
    else if option == "async" then Sets(Synchronous)
    else if option == "sync" then Clears(Synchronous)
    else if option == "bind" then Sets(Bind)
    else if option == "dirsync" then Sets(DirSync)
    else if option in {"loop", "_netdev", "defaults", "x-nopremount", "x-premount"} then Ignored
    else Unrecognised
  }

  datatype Parsed = Parsed(flags: Flags, opts: seq<string>)

  function Apply(p: Parsed, option: string): Parsed {
    match EffectOf(option)
    case Sets(f) => p.(flags := p.flags + {f})
    case Clears(f) => p.(flags := p.flags - {f})
    case Ignored => p
    case Unrecognised => p.(opts := p.opts + [option])
  }

  function ParseTokens(tokens: seq<string>, p: Parsed): Parsed
    decreases tokens
  {
    if tokens == [] then p else ParseTokens(tokens[1..], Apply(p, tokens[0]))
  }

  const NOTHING := Parsed({}, [])

  function Parse(s: string): Parsed {
    ParseTokens(Tokens(s, COMMA), NOTHING)
  }

  /** parse_mount_opts_str_to_dynarray(): one pass over the tokens. */
  method ParseMountOptsStr(optsIn: Option<string>) returns (ret: int, flags: Flags, opts: seq<string>)
    ensures optsIn.None? ==> ret == -1 && flags == {} && opts == []
    ensures optsIn.Some? ==> ret == 0 && Parsed(flags, opts) == Parse(optsIn.value)
  {
    flags, opts := {}, [];
    if optsIn.None? {
      return -1, {}, [];
    }
    var t := Strtok(optsIn.value, COMMA);
    while t.Token?
      invariant Parse(optsIn.value) == ParseTokens(From(t, COMMA), Parsed(flags, opts))
      decreases if t.NoToken? then 0 else 1 + |t.rest|
    {
      ghost var all := From(t, COMMA);
      match EffectOf(t.text) {
        case Sets(f) => flags := flags + {f};
        case Clears(f) => flags := flags - {f};
        case Ignored =>
        case Unrecognised => opts := opts + [t.text];
      }
      assert all[1..] == From(Strtok(t.rest, COMMA), COMMA);
      t := Strtok(t.rest, COMMA);
    }
    return 0, flags, opts;
  }

  lemma {:induction false} ParseAppend(a: seq<string>, b: seq<string>, p: Parsed)
    ensures ParseTokens(a + b, p) == ParseTokens(b, ParseTokens(a, p))
    decreases a
  {
    if a == [] {
      assert a + b == b;
    } else {
      assert (a + b)[1..] == a[1..] + b;
      ParseAppend(a[1..], b, Apply(p, a[0]));
    }
  }

  // ---- the last word decides --------------------------------------------------------------------

  predicate Touches(option: string, f: Flag) {
    EffectOf(option) in {Sets(f), Clears(f)}
  }

  /** Index of the last token about `f`, or -1. */
  function LastAbout(tokens: seq<string>, f: Flag): (i: int)
    ensures -1 <= i < |tokens|
    ensures i >= 0 ==> Touches(tokens[i], f)
    ensures forall j :: i < j < |tokens| ==> !Touches(tokens[j], f)
  {
    if tokens == [] then -1
    else if Touches(tokens[|tokens| - 1], f) then |tokens| - 1
    else LastAbout(tokens[..|tokens| - 1], f)
  }

  /** A flag ends up as the last token about it says, and as it was if there is none. */
  lemma {:induction false} LastTokenDecides(tokens: seq<string>, f: Flag, p: Parsed)
    ensures var i := LastAbout(tokens, f);
            f in ParseTokens(tokens, p).flags <==> if i >= 0 then EffectOf(tokens[i]) == Sets(f) else f in p.flags
  {
    if tokens != [] {
      var front, last := tokens[..|tokens| - 1], tokens[|tokens| - 1];
      assert tokens == front + [last];
      ParseAppend(front, [last], p);
      assert [last][1..] == [];
      assert ParseTokens([last], ParseTokens(front, p)) == Apply(ParseTokens(front, p), last);
      LastTokenDecides(front, f, p);
    }
  }

  // ---- printing ---------------------------------------------------------------------------------

  datatype Row = Row(flag: Flag, option: string)

  const FIRST_ROWS := [Row(Remount, "remount"), Row(Bind, "bind")]

  const MIDDLE_ROWS := [Row(DirSync, "dirsync"), Row(MandLock, "mand"), Row(NoAtime, "noatime"), Row(NoDev, "nodev"),
                        Row(NoDirAtime, "nodiratime"), Row(NoExec, "noexec"), Row(NoSuid, "nosuid")]

  const LAST_ROWS := [Row(RelAtime, "relatime"), Row(Silent, "silent"), Row(StrictAtime, "strictatime")]

  function PrintRows(flags: Flags, rows: seq<Row>): seq<string> {
    if rows == [] then []
    else (if rows[0].flag in flags then [rows[0].option] else []) + PrintRows(flags, rows[1..])
  }

  /** The options get_mount_opts_str() prints for the flags, in its order. */
  function PrintFlags(flags: Flags): seq<string> {
    PrintRows(flags, FIRST_ROWS + [Row(Move, "move")] + MIDDLE_ROWS)
    + [if RdOnly in flags then "ro" else "rw"]
    + PrintRows(flags, LAST_ROWS + [Row(Synchronous, "sync")])
  }

  function AllOptions(flags: Flags, optsIn: Option<string>): seq<string> {
    PrintFlags(flags) + if optsIn.Some? then [optsIn.value] else []
  }

  function Print(flags: Flags, optsIn: Option<string>): string {
    Join(",", AllOptions(flags, optsIn))
  }

  /** How many of `m` appends succeed, the first of them being append number `n`. */
  function Room(n: nat, m: nat, full: nat -> bool): (r: nat)
    ensures r <= m
    ensures forall i :: n <= i < n + r ==> !full(i)
    ensures r < m ==> full(n + r)
    decreases m
  {
    if m == 0 || full(n) then 0 else 1 + Room(n + 1, m - 1, full)
  }

  /** The options before the first one whose append fails. */
  function Kept(options: seq<string>, full: nat -> bool): seq<string> {
    options[..Room(0, |options|, full)]
  }

  /** `options` is what was appended of `wanted`, and `ok` tells whether that is everything. */
  ghost predicate Appended(options: seq<string>, ok: bool, wanted: seq<string>, full: nat -> bool) {
    options == Kept(wanted, full) && (ok <==> |options| == |wanted|)
  }

  lemma RoomForMore(wanted: seq<string>, option: string, full: nat -> bool)
    ensures Kept(wanted + [option], full) ==
            if Kept(wanted, full) == wanted && !full(|wanted|) then wanted + [option] else Kept(wanted, full)
  {
    var m := |wanted|;
    assert Room(0, m + 1, full) == if Room(0, m, full) == m && !full(m) then m + 1 else Room(0, m, full);
  }

  /** dynarray_append_strnodup(), unless an earlier one failed; it fails if the array cannot grow. */
  method AppendOne(options: seq<string>, ok: bool, option: string, full: nat -> bool, ghost wanted: seq<string>)
    returns (more: seq<string>, stillOk: bool)
    requires Appended(options, ok, wanted, full)
    ensures Appended(more, stillOk, wanted + [option], full)
  {
    RoomForMore(wanted, option, full);
    more, stillOk := options, ok;
    if ok {
      if full(|options|) {
        stillOk := false;
      } else {
        more := options + [option];
      }
    }
  }

  lemma PrintOneMoreRow(flags: Flags, rows: seq<Row>, k: nat, wanted: seq<string>)
    requires k < |rows|
    ensures wanted + PrintRows(flags, rows[..k + 1]) ==
            wanted + PrintRows(flags, rows[..k]) + if rows[k].flag in flags then [rows[k].option] else []
  {
    assert rows[..k + 1] == rows[..k] + [rows[k]];
    PrintRowsAppend(flags, rows[..k], [rows[k]]);
    assert [rows[k]][1..] == [];
  }

  /** One conditional append for each row. */
  method AppendRows(options: seq<string>, ok: bool, flags: Flags, rows: seq<Row>, full: nat -> bool,
                    ghost wanted: seq<string>)
    returns (more: seq<string>, stillOk: bool)
    requires Appended(options, ok, wanted, full)
    ensures Appended(more, stillOk, wanted + PrintRows(flags, rows), full)
  {
    more, stillOk := options, ok;
    assert rows[..0] == [] && wanted + [] == wanted;
    for k := 0 to |rows|
      invariant Appended(more, stillOk, wanted + PrintRows(flags, rows[..k]), full)
    {
      PrintOneMoreRow(flags, rows, k, wanted);
      ghost var sofar := wanted + PrintRows(flags, rows[..k]);
      if rows[k].flag in flags {
        more, stillOk := AppendOne(more, stillOk, rows[k].option, full, sofar);
      } else {
        assert sofar + [] == sofar;
      }
    }
    assert rows[..|rows|] == rows;
  }

  /** The appends one after the other, each made only if those before succeeded. */
  method CollectOptions(flags: Flags, optsIn: Option<string>, full: nat -> bool) returns (options: seq<string>)
    ensures options == Kept(AllOptions(flags, optsIn), full)
  {
    var rows, lastRows := FIRST_ROWS + [Row(Move, "move")] + MIDDLE_ROWS, LAST_ROWS + [Row(Synchronous, "sync")];
    ghost var head := PrintRows(flags, rows);
    var rorw := if RdOnly in flags then "ro" else "rw";
    assert [] + head == head;
    var ok;
    options, ok := AppendRows([], true, flags, rows, full, []);
    options, ok := AppendOne(options, ok, rorw, full, head);
    options, ok := AppendRows(options, ok, flags, lastRows, full, head + [rorw]);
    ghost var all := head + [rorw] + PrintRows(flags, lastRows);
    assert all == PrintFlags(flags);
    if optsIn.Some? {
      options, ok := AppendOne(options, ok, optsIn.value, full, all);
    } else {
      assert all + [] == all;
    }
  }

  /**
  get_mount_opts_str(): `full(n)` tells whether append number n fails, in which case the options
  before it are printed all the same.
  */
  method GetMountOptsStr(flags: Flags, optsIn: Option<string>, noArray: bool, full: nat -> bool, exhausted: nat -> bool)
    returns (r: Option<string>)
    requires optsIn.Some? ==> NoNul(optsIn.value)
    ensures r.Some? ==> r.value == Join(",", Kept(AllOptions(flags, optsIn), full))
    ensures r.Some? && (forall n :: 0 <= n < |AllOptions(flags, optsIn)| ==> !full(n)) ==> r.value == Print(flags, optsIn)
    ensures r.None? ==> noArray || exists n :: 0 <= n < 2 + 2 * |AllOptions(flags, optsIn)| && exhausted(n)
  {
    if noArray {
      return None;
    }
    var options := CollectOptions(flags, optsIn, full);
    ghost var all := AllOptions(flags, optsIn);
    PrintedAreClean(flags);
    assert forall i :: 0 <= i < |options| ==> options[i] == all[i] && NoNul(all[i]);
    PresentOfAll(options);
    r := JoinStrArray(Some(","), AllPresent(options), exhausted);
    assert all[..|all|] == all;
  }

  // ---- printing, then parsing -------------------------------------------------------------------

  /** An option that survives joining: non-empty, and without comma or NUL. */
  predicate Clean(option: string) {
    option != "" && NoNul(option) && FreeOf(option, COMMA)
  }

  ghost predicate CleanRows(rows: seq<Row>) {
    forall i :: 0 <= i < |rows| ==> Clean(rows[i].option)
  }

  lemma {:induction false} PrintRowsAreClean(flags: Flags, rows: seq<Row>)
    requires CleanRows(rows)
    ensures AllClean(PrintRows(flags, rows))
  {
    if rows != [] {
      PrintRowsAreClean(flags, rows[1..]);
    }
  }

  ghost predicate AllClean(options: seq<string>) {
    forall i :: 0 <= i < |options| ==> Clean(options[i])
  }

  lemma FirstRowsAreClean()
    ensures CleanRows(FIRST_ROWS + [Row(Move, "move")])
  {
  }

  lemma MiddleFrontIsClean()
    ensures CleanRows(MIDDLE_ROWS[..4])
  {
  }

  lemma MiddleBackIsClean()
    ensures CleanRows(MIDDLE_ROWS[4..])
  {
  }

  lemma MiddleRowsAreClean()
    ensures CleanRows(MIDDLE_ROWS)
  {
    MiddleFrontIsClean();
    MiddleBackIsClean();
    CleanAppend(MIDDLE_ROWS[..4], MIDDLE_ROWS[4..]);
    assert MIDDLE_ROWS[..4] + MIDDLE_ROWS[4..] == MIDDLE_ROWS;
  }

  lemma CleanAppend(a: seq<Row>, b: seq<Row>)
    requires CleanRows(a) && CleanRows(b)
    ensures CleanRows(a + b)
  {
  }

  lemma LastRowsAreClean()
    ensures CleanRows(LAST_ROWS + [Row(Synchronous, "sync")])
  {
  }

  lemma PrintedAreClean(flags: Flags)
    ensures PrintFlags(flags) != [] && AllClean(PrintFlags(flags))
  {
    FirstRowsAreClean();
    MiddleRowsAreClean();
    LastRowsAreClean();
    PrintRowsAreClean(flags, FIRST_ROWS + [Row(Move, "move")] + MIDDLE_ROWS);
    PrintRowsAreClean(flags, LAST_ROWS + [Row(Synchronous, "sync")]);
    assert Clean("ro") && Clean("rw");
  }

  lemma {:induction false} JoinOntoAppend(acc: string, sep: string, a: seq<string>, b: seq<string>)
    ensures JoinOnto(acc, sep, a + b) == JoinOnto(JoinOnto(acc, sep, a), sep, b)
    decreases a
  {
    if a == [] {
      assert a + b == b;
    } else {
      assert (a + b)[1..] == a[1..] + b;
      JoinOntoAppend(acc + (if acc != "" then sep else "") + a[0], sep, a[1..], b);
    }
  }

  lemma TokensOfJoined(options: seq<string>)
    requires AllClean(options)
    ensures Tokens(Join(",", options), COMMA) == options && (options != [] ==> Join(",", options) != "")
  {
    var head := Join(",", options);
    WordsOfJoin("", ',', options, COMMA);
    WordsOfWord("", COMMA);
    NonEmptyOfNonEmpty(options);
    TokensAreWords(head, COMMA);
  }

  lemma TokensOfJoinedMore(options: seq<string>, more: string)
    requires AllClean(options) && options != []
    ensures Tokens(Join(",", options + [more]), COMMA) == options + Tokens(more, COMMA)
  {
    var head := Join(",", options);
    TokensOfJoined(options);
    JoinOntoAppend("", ",", options, [more]);
    assert [more][1..] == [];
    assert JoinOnto(head, ",", [more]) == JoinOnto(head + "," + more, ",", [more][1..]);
    TokensAreWords(head, COMMA);
    WordsCut(head, ',', more, COMMA);
    TokensAreWords(head + "," + more, COMMA);
    TokensAreWords(more, COMMA);
  }

  /** Splitting what was printed gives the flag options followed by the caller's own. */
  lemma TokensOfPrint(flags: Flags, optsIn: Option<string>)
    ensures Tokens(Print(flags, optsIn), COMMA)
         == PrintFlags(flags) + if optsIn.Some? then Tokens(optsIn.value, COMMA) else []
  {
    var options := PrintFlags(flags);
    PrintedAreClean(flags);
    if optsIn.Some? {
      TokensOfJoinedMore(options, optsIn.value);
    } else {
      TokensOfJoined(options);
      assert options + [] == options;
    }
  }

  function FlagsOf(rows: seq<Row>): Flags {
    if rows == [] then {} else {rows[0].flag} + FlagsOf(rows[1..])
  }

  ghost predicate Faithful(rows: seq<Row>) {
    forall i :: 0 <= i < |rows| ==> EffectOf(rows[i].option) == Sets(rows[i].flag)
  }

  lemma {:induction false} ParseOfRows(flags: Flags, rows: seq<Row>, p: Parsed)
    requires Faithful(rows)
    ensures ParseTokens(PrintRows(flags, rows), p) == p.(flags := p.flags + flags * FlagsOf(rows))
    decreases rows
  {
    if rows != [] {
      var first := if rows[0].flag in flags then [rows[0].option] else [];
      ParseAppend(first, PrintRows(flags, rows[1..]), p);
      var q := p.(flags := p.flags + flags * {rows[0].flag});
      assert ParseTokens(first, p) == q by {
        assert first != [] ==> first[1..] == [];
      }
      ParseOfRows(flags, rows[1..], q);
    }
  }

  lemma {:induction false} PrintRowsAppend(flags: Flags, a: seq<Row>, b: seq<Row>)
    ensures PrintRows(flags, a + b) == PrintRows(flags, a) + PrintRows(flags, b)
  {
    if a == [] {
      assert a + b == b;
    } else {
      assert (a + b)[1..] == a[1..] + b;
      PrintRowsAppend(flags, a[1..], b);
    }
  }

  lemma FirstRowsAreFaithful()
    ensures Faithful(FIRST_ROWS) && EffectOf("move") == Unrecognised
  {
  }

  lemma MiddleFrontIsFaithful()
    ensures Faithful(MIDDLE_ROWS[..4])
  {
  }

  lemma MiddleBackIsFaithful()
    ensures Faithful(MIDDLE_ROWS[4..])
  {
  }

  lemma FaithfulAppend(a: seq<Row>, b: seq<Row>)
    requires Faithful(a) && Faithful(b)
    ensures Faithful(a + b)
  {
  }

  lemma MiddleRowsAreFaithful()
    ensures Faithful(MIDDLE_ROWS)
  {
    MiddleFrontIsFaithful();
    MiddleBackIsFaithful();
    FaithfulAppend(MIDDLE_ROWS[..4], MIDDLE_ROWS[4..]);
    assert MIDDLE_ROWS[..4] + MIDDLE_ROWS[4..] == MIDDLE_ROWS;
  }

  lemma LastRowsAreFaithful()
    ensures Faithful(LAST_ROWS) && EffectOf("sync") == Clears(Synchronous)
  {
  }

  lemma RoRwAreFaithful()
    ensures EffectOf("ro") == Sets(RdOnly) && EffectOf("rw") == Clears(RdOnly)
  {
  }

  const HEAD_FLAGS: Flags := {Remount, Bind, DirSync, MandLock, NoAtime, NoDev, NoDirAtime, NoExec, NoSuid}
  const TAIL_FLAGS: Flags := {RelAtime, Silent, StrictAtime}

  /** The flags that printing and parsing preserve: all named ones but MS_MOVE and MS_SYNCHRONOUS. */
  const SURVIVING: Flags := HEAD_FLAGS + {RdOnly} + TAIL_FLAGS

  lemma SurvivingFlags(f: Flag)
    ensures f in SURVIVING <==> !f.Unnamed? && f != Move && f != Synchronous
  {
  }

  lemma FlagsOfMiddle()
    ensures FlagsOf(MIDDLE_ROWS) == {DirSync, MandLock, NoAtime, NoDev, NoDirAtime, NoExec, NoSuid}
  {
  }

  lemma FlagsOfHead()
    ensures FlagsOf(FIRST_ROWS) + FlagsOf(MIDDLE_ROWS) == HEAD_FLAGS
  {
    FlagsOfMiddle();
    assert FlagsOf(FIRST_ROWS) == {Remount, Bind};
  }

  lemma FlagsOfTail()
    ensures FlagsOf(LAST_ROWS) == TAIL_FLAGS
  {
  }

  lemma ParseOne(option: string, p: Parsed)
    ensures ParseTokens([option], p) == Apply(p, option)
  {
    assert [option][1..] == [];
  }

  lemma ParseAround(flags: Flags, before: seq<Row>, row: Row, after: seq<Row>)
    requires Faithful(before) && EffectOf(row.option) == Unrecognised && Faithful(after)
    ensures ParseTokens(PrintRows(flags, before + [row] + after), NOTHING)
         == Parsed(flags * (FlagsOf(before) + FlagsOf(after)), if row.flag in flags then [row.option] else [])
  {
    PrintRowsAppend(flags, before + [row], after);
    PrintRowsAppend(flags, before, [row]);
    var a, b, c := PrintRows(flags, before), PrintRows(flags, [row]), PrintRows(flags, after);
    ParseAppend(a + b, c, NOTHING);
    ParseAppend(a, b, NOTHING);
    ParseOfRows(flags, before, NOTHING);
    ParseOneRow(flags, row, ParseTokens(a, NOTHING));
    ParseOfRows(flags, after, ParseTokens(a + b, NOTHING));
    assert flags * FlagsOf(before) + flags * FlagsOf(after) == flags * (FlagsOf(before) + FlagsOf(after));
  }

  /** The part of the printed options before ro/rw. */
  lemma ParseOfHead(flags: Flags)
    ensures ParseTokens(PrintRows(flags, FIRST_ROWS + [Row(Move, "move")] + MIDDLE_ROWS), NOTHING)
         == Parsed(flags * HEAD_FLAGS, if Move in flags then ["move"] else [])
  {
    FirstRowsAreFaithful();
    MiddleRowsAreFaithful();
    ParseAround(flags, FIRST_ROWS, Row(Move, "move"), MIDDLE_ROWS);
    FlagsOfHead();
  }

  lemma ParseOneRow(flags: Flags, row: Row, p: Parsed)
    ensures ParseTokens(PrintRows(flags, [row]), p) == if row.flag in flags then Apply(p, row.option) else p
  {
    assert [row][1..] == [];
    assert PrintRows(flags, [row]) == if row.flag in flags then [row.option] else [];
    ParseOne(row.option, p);
  }

  lemma ParseOfTail(flags: Flags, p: Parsed)
    requires Synchronous !in p.flags
    ensures ParseTokens(PrintRows(flags, LAST_ROWS + [Row(Synchronous, "sync")]), p)
         == p.(flags := p.flags + flags * TAIL_FLAGS)
  {
    FlagsOfTail();
    var sync := [Row(Synchronous, "sync")];
    PrintRowsAppend(flags, LAST_ROWS, sync);
    LastRowsAreFaithful();
    ParseAppend(PrintRows(flags, LAST_ROWS), PrintRows(flags, sync), p);
    ParseOfRows(flags, LAST_ROWS, p);
    ParseOneRow(flags, sync[0], ParseTokens(PrintRows(flags, LAST_ROWS), p));
  }

  lemma ParseOfPrintFlags(flags: Flags)
    ensures ParseTokens(PrintFlags(flags), NOTHING)
         == Parsed(flags * SURVIVING, if Move in flags then ["move"] else [])
  {
    var head := PrintRows(flags, FIRST_ROWS + [Row(Move, "move")] + MIDDLE_ROWS);
    var mid := if RdOnly in flags then "ro" else "rw";
    var tail := PrintRows(flags, LAST_ROWS + [Row(Synchronous, "sync")]);
    ParseAppend(head + [mid], tail, NOTHING);
    ParseAppend(head, [mid], NOTHING);
    ParseOfHead(flags);
    var p := ParseTokens(head, NOTHING);
    ParseOne(mid, p);
    RoRwAreFaithful();
    var q := p.(flags := flags * (HEAD_FLAGS + {RdOnly}));
    assert Apply(p, mid) == q;
    ParseOfTail(flags, q);
    assert q.flags + flags * TAIL_FLAGS == flags * SURVIVING;
  }

  /**
  What parsing makes of printed options, for every flag set and every option string: the
  surviving flags, "move" as an ordinary option, and then whatever the option string says.
  */
  lemma ParseOfPrint(flags: Flags, optsIn: Option<string>)
    ensures Parse(Print(flags, optsIn))
         == ParseTokens(if optsIn.Some? then Tokens(optsIn.value, COMMA) else [],
                        Parsed(flags * SURVIVING, if Move in flags then ["move"] else []))
  {
    TokensOfPrint(flags, optsIn);
    ParseOfPrintFlags(flags);
    ParseAppend(PrintFlags(flags), if optsIn.Some? then Tokens(optsIn.value, COMMA) else [], NOTHING);
  }

  ghost predicate AllUnrecognised(opts: seq<string>) {
    forall i :: 0 <= i < |opts| ==> EffectOf(opts[i]) == Unrecognised
  }

  ghost predicate Foreign(opts: seq<string>) {
    AllClean(opts) && AllUnrecognised(opts)
  }

  lemma UnrecognisedRest(opts: seq<string>)
    requires AllUnrecognised(opts) && opts != []
    ensures EffectOf(opts[0]) == Unrecognised && AllUnrecognised(opts[1..])
  {
  }

  lemma {:induction false} ParseOfForeign(opts: seq<string>, p: Parsed)
    requires AllUnrecognised(opts)
    ensures ParseTokens(opts, p) == p.(opts := p.opts + opts)
    decreases opts
  {
    if opts != [] {
      UnrecognisedRest(opts);
      var q := Parsed(p.flags, p.opts + [opts[0]]);
      ParseForeignFirst(opts, p);
      ParseOfForeign(opts[1..], q);
      assert q.opts + opts[1..] == p.opts + opts;
    }
  }

  lemma ParseForeignFirst(opts: seq<string>, p: Parsed)
    requires opts != [] && EffectOf(opts[0]) == Unrecognised
    ensures ParseTokens(opts, p) == ParseTokens(opts[1..], Parsed(p.flags, p.opts + [opts[0]]))
  {
    ApplyForeign(p, opts[0]);
  }

  lemma ApplyForeign(p: Parsed, option: string)
    requires EffectOf(option) == Unrecognised
    ensures Apply(p, option) == Parsed(p.flags, p.opts + [option])
  {
  }

  /**
  Printing and parsing is the identity on flags and unrecognised options exactly for the flag
  sets without MS_MOVE, MS_SYNCHRONOUS and unnamed bits.
  */
  lemma RoundTrip(flags: Flags, opts: seq<string>)
    requires Foreign(opts)
    ensures Parse(Print(flags, Some(Join(",", opts)))) == Parsed(flags, opts) <==> flags <= SURVIVING
  {
    TokensOfJoined(opts);
    ParseOfPrint(flags, Some(Join(",", opts)));
    var p := Parsed(flags * SURVIVING, if Move in flags then ["move"] else []);
    ParseOfForeign(opts, p);
    SurvivingFlags(Move);
    if flags <= SURVIVING {
      assert flags * SURVIVING == flags;
      assert [] + opts == opts;
    }
  }

  /** The swapped table entries at work: MS_SYNCHRONOUS does not survive. */
  lemma SyncIsLost()
    ensures Parse(Print({Synchronous}, None)) == NOTHING
  {
    ParseOfPrint({Synchronous}, None);
    SurvivingFlags(Synchronous);
    assert {Synchronous} * SURVIVING == {};
  }
}
