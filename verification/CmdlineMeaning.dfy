/**
What each argument of the kernel command line says, in terms of its words alone, and the proof
that delivering its events to the handlers, one by one, does exactly that.
*/
module CmdlineMeaning {
  import opened Wrappers
  import opened Argsplit
  import opened Cmdline
  import opened CmdlineRuns
  import MountOpts
  import StrSplit

  // ---- the words --------------------------------------------------------------------------------------

  /** Keys whose whole meaning is that they are there. */
  predicate Constant(key: string) {
    key in {"norootmount", "nousrmount", "liram"} || "liram_" <= key
  }

  predicate StartOnly(key: string) {
    key in {"ro", "rw", "stagedive"}
  }

  /** Keys that take one value and are done with it. */
  predicate FirstOnly(key: string) {
    key in {"root", "rootfstype", "zram_disk", "zdisk"}
  }

  predicate RootFlagsKey(key: string) {
    key in {"rootfsflags", "rootflags"}
  }

  /** All others: every value says something, or nothing does. */
  predicate Multi(key: string) {
    !Constant(key) && !StartOnly(key) && !FirstOnly(key) && !RootFlagsKey(key)
  }

  function ConstantMeans(g: Globals, key: string): Globals {
    if key == "nousrmount" then g.(wantUsr := {No}) else g.(wantNewroot := {No})
  }

  function StartOnlyMeans(g: Globals, key: string): Globals {
    if key == "ro" then g.(rootRo := {Yes})
    else if key == "rw" then g.(rootRo := {No})
    else
      g.(newroot := g.newroot.(source := Some("zroot"), fstype := Some("zdisk"), opts := None, cfg := g.newroot.cfg + {IsEnabled}),
         rootRo := {No}, wantNewroot := {Yes})
  }

  /** What a key says before any of its values is looked at. */
  function StartMeans(sys: System, g: Globals, f: seq<string>): Globals
    requires f != []
  {
    if f[0] == "rootfind" then if g.rootfindDelay == 0 then g.(rootfindDelay := 50) else g
    else if f[0] == "squashed_usr" then
      if No in g.wantUsr then g else g.(usr := g.usr.(cfg := g.usr.cfg + {IsEnabled}))
    else if f[0] == "zram_swap" then
      g.(autoswap := Some(
           if |f| > 1 then f[1] else if sys.memoryM < 10000 then "/2" else if sys.memoryM < 20000 then "/4"
           else if sys.memoryM < 30000 then "/5" else if sys.memoryM < 40000 then "/6" else "/7"))
    else if f[0] == "xshell" then g.(doshell := if |f| == 1 then {OnError, Loop} else {OnError})
    else g
  }

  function ShellMeans(modes: set<ShellMode>, word: string): set<ShellMode> {
    if word == "never" then {}
    else modes + (if word == "fail" || word == "error" then {OnError}
                  else if word == "once" then {Once}
                  else if word == "pre" || word == "preswitch" then {Preswitch}
                  else if word == "always" then {Loop}
                  else {})
  }

  function UsrMeans(g: Globals, word: string): Globals {
    if No in g.wantUsr then g
    else if word == "builtin" then g.(wantUsr := g.wantUsr + {Forced})
    else if word == "ro" then g.(usr := g.usr.(flags := g.usr.flags + {MountOpts.RdOnly}))
    else if word == "rw" then g.(usr := g.usr.(flags := g.usr.flags - {MountOpts.RdOnly}))
    else if "/" <= word then g.(usr := g.usr.(source := Some(word)))
    else g
  }

  /** What one value of a key says. */
  function ValueMeans(sys: System, g: Globals, key: string, word: string): Globals {
    if key in {"modprobe", "load_modules"} then g.(modules := g.modules + [word])
    else if key in {"init", "real_init"} then g.(realInit := Some(word))
    else if key == "rootfind" then
      g.(rootfindDelay :=
        if sys.toLong(word).Some? && 0 <= sys.toLong(word).value <= 10000 then sys.toLong(word).value else 50)
    else if key == "squashed_usr" then UsrMeans(g, word)
    else if key == "xshell" then g.(doshell := ShellMeans(g.doshell, word))
    else g
  }

  function ValuesMean(sys: System, g: Globals, key: string, words: seq<string>): Globals
    decreases words
  {
    if words == [] then g else ValuesMean(sys, ValueMeans(sys, g, key, words[0]), key, words[1..])
  }

  datatype Meant = Meant(state: Globals, ret: int)

  function FirstOnlyMeans(sys: System, g: Globals, key: string, values: seq<string>): Meant
    requires values != []
  {
    if key == "root" then
      Meant(g.(newroot := g.newroot.(source := Some(values[0]), cfg := g.newroot.cfg + {IsEnabled})), 0)
    else if key == "rootfstype" then Meant(g.(newroot := g.newroot.(fstype := Some(values[0]))), 0)
    else Meant(g, sys.zramDisk(values))
  }

  /** What an argument `str` with the fields `f` says. */
  function Means(sys: System, g: Globals, str: string, f: seq<string>): Meant
    requires f != []
  {
    if Constant(f[0]) then Meant(ConstantMeans(g, f[0]), 0)
    else if StartOnly(f[0]) then Meant(StartOnlyMeans(g, f[0]), 0)
    else if FirstOnly(f[0]) then if |f| == 1 then Meant(g, 0) else FirstOnlyMeans(sys, g, f[0], f[1..])
    else if RootFlagsKey(f[0]) then
      (match RootFlagsArg(g.newroot, str)
       case None => Meant(g, -1)
       case Some(m) => Meant(g.(newroot := m), 0))
    else Meant(ValuesMean(sys, StartMeans(sys, g, f), f[0], f[1..]), 0)
  }

  // ---- rootfsflags ------------------------------------------------------------------------------------

  /** rootfsflags=s replaces flags and options by what s says, with nothing after '=' it clears them; without '=' it fails. */
  lemma RootFlagsSay(m: Mount, key: string, s: string)
    requires StrSplit.FreeOf(key, {'='})
    ensures RootFlagsArg(m, key) == None
    ensures RootFlagsArg(m, key + "=") == Some(m.(flags := {}, opts := None))
    ensures s != "" ==>
              var p := MountOpts.Parse(s);
              RootFlagsArg(m, key + "=" + s) == Some(m.(flags := p.flags, opts := Some(StrSplit.Join(",", p.opts))))
  {
    StrSplit.SpanOver(key, '=', s, {'='}, false);
    StrSplit.SpanOver(key, '=', "", {'='}, false);
    assert key + "=" + "" == key + "=" && (key + "=" + s)[|key| + 1..] == s;
  }

  // ---- single events ----------------------------------------------------------------------------------

  lemma MoreKeyWords(key: string)
    ensures KeyOf(key) == Init <==> key in {"init", "real_init"}
    ensures KeyOf(key) == RootNomount <==> key == "norootmount"
    ensures KeyOf(key) == RootFlags <==> RootFlagsKey(key)
    ensures KeyOf(key) == Rootfind <==> key == "rootfind"
    ensures KeyOf(key) == UsrSfs <==> key == "squashed_usr"
    ensures KeyOf(key) == ZramSwap <==> key == "zram_swap"
    ensures KeyOf(key) == ZramDisk <==> key in {"zram_disk", "zdisk"}
    ensures KeyOf(key) == Shell <==> key == "xshell"
  {
  }

  lemma LiramWords(key: string)
    ensures KeyOf(key) == Liram <==> key == "liram" || "liram_" <= key
  {
    assert "liram_" <= key ==> key[0] == 'l' && key[1] == 'i';
  }

  lemma ConstantEvent(sys: System, g: Globals, e: Event)
    requires Constant(e.key)
    ensures Handle(sys, g, e) == Reply(ConstantMeans(g, e.key), 0, KeepGoing)
  {
    KeyWords(e.key);
    MoreKeyWords(e.key);
    LiramWords(e.key);
    assert "nousrmount"[0] == 'n' && "liram_"[0] == 'l';
  }

  lemma StartOnlyEvent(sys: System, g: Globals, e: Event)
    requires StartOnly(e.key) && e.endOfArg == -1
    ensures Handle(sys, g, e) == Reply(StartOnlyMeans(g, e.key), 0, NextArg)
  {
    KeyWords(e.key);
  }

  lemma FirstOnlyEvent(sys: System, g: Globals, e: Event)
    requires FirstOnly(e.key)
    ensures e.endOfArg != 0 ==> Handle(sys, g, e) == Reply(g, 0, KeepGoing)
    ensures e.endOfArg == 0 && e.argv != [] && e.argv[0] != "" && e.value == Some(e.argv[0]) ==>
              var m := FirstOnlyMeans(sys, g, e.key, e.argv); Handle(sys, g, e) == Reply(m.state, m.ret, NextArg)
  {
    KeyWords(e.key);
    MoreKeyWords(e.key);
  }

  lemma RootFlagsEvent(sys: System, g: Globals, e: Event)
    requires RootFlagsKey(e.key)
    ensures Handle(sys, g, e) ==
            match RootFlagsArg(g.newroot, e.str) {
              case None => Reply(g, -1, KeepGoing)
              case Some(m) => Reply(g.(newroot := m), 0, NextArg)
            }
  {
    MoreKeyWords(e.key);
  }

  lemma MultiKeys(key: string)
    requires Multi(key)
    ensures KeyOf(key) in {DontCare, Modprobe, Init, Rootfind, UsrSfs, ZramSwap, Shell}
  {
    KeyWords(key);
    MoreKeyWords(key);
    LiramWords(key);
  }

  lemma MultiStart(sys: System, g: Globals, e: Event)
    requires Multi(e.key) && e.endOfArg == -1 && e.value == None && e.argv != [] && e.argv[0] == e.key
    requires |e.argv| > 1 ==> e.argv[1] != ""
    ensures Handle(sys, g, e) == Reply(StartMeans(sys, g, e.argv), 0, KeepGoing)
  {
    var loop: set<ShellMode> := if |e.argv| < 2 then {Loop} else {};
    assert {OnError} + loop == if |e.argv| == 1 then {OnError, Loop} else {OnError};
    MultiKeys(e.key);
    KeyWords(e.key);
    MoreKeyWords(e.key);
  }

  lemma MultiValue(sys: System, g: Globals, e: Event, word: string)
    requires Multi(e.key) && e.endOfArg == 0 && e.value == Some(word) && word != ""
    ensures Handle(sys, g, e) == Reply(ValueMeans(sys, g, e.key, word), 0, KeepGoing)
  {
    MultiKeys(e.key);
    KeyWords(e.key);
    MoreKeyWords(e.key);
    assert "/" <= word <==> word[0] == '/';
    assert g.doshell + {} == g.doshell;
  }

  lemma MultiEnd(sys: System, g: Globals, e: Event)
    requires Multi(e.key) && e.endOfArg == 1 && e.value == None
    ensures Handle(sys, g, e) == Reply(g, 0, KeepGoing)
  {
    MultiKeys(e.key);
  }

  // ---- the events of one argument -----------------------------------------------------------------------

  ghost predicate NonEmptyWords(f: seq<string>) {
    forall i :: 0 <= i < |f| ==> f[i] != ""
  }

  function EndEvent(str: string, f: seq<string>): Event
    requires f != []
  {
    Event(str, f[0], None, [], 0, 1)
  }

  /** From value `k` on. */
  function RestOf(str: string, f: seq<string>, k: nat): seq<Event>
    requires 1 <= k <= |f|
  {
    Values(str, f, k) + [EndEvent(str, f)]
  }

  lemma RestStep(str: string, f: seq<string>, k: nat)
    requires 1 <= k < |f|
    ensures RestOf(str, f, k) == [Event(str, f[0], Some(f[k]), f[k..], k, 0)] + RestOf(str, f, k + 1)
  {
  }

  lemma EventsStep(str: string, f: seq<string>)
    requires f != []
    ensures EventsWith(str, f) == [Event(str, f[0], None, f, 0, -1)] + RestOf(str, f, 1)
  {
  }

  lemma DeliverCons(sys: System, g: Globals, e: Event, rest: seq<Event>, past: seq<Delivered>)
    ensures var r := Handle(sys, g, e);
            var next := past + [Delivered(e, r.ret, r.flow)];
            Deliver(Handler(sys), g, [e] + rest, past) ==
              if Continues(r.ret, r.flow) then Deliver(Handler(sys), r.state, rest, next)
              else Outcome(r.state, r.ret, r.flow, next)
  {
    assert ([e] + rest)[1..] == rest;
  }

  lemma DeliverOne(sys: System, g: Globals, e: Event, past: seq<Delivered>)
    ensures var o, r := Deliver(Handler(sys), g, [e], past), Handle(sys, g, e); o.state == r.state && o.ret == r.ret
  {
    DeliverCons(sys, g, e, [], past);
    assert [e] + [] == [e];
  }

  lemma {:induction false} ConstantRest(sys: System, g: Globals, str: string, f: seq<string>, k: nat, past: seq<Delivered>)
    requires 1 <= k <= |f| && Constant(f[0])
    ensures var o := Deliver(Handler(sys), g, RestOf(str, f, k), past); o.state == ConstantMeans(g, f[0]) && o.ret == 0
    decreases |f| - k
  {
    if k == |f| {
      ConstantEvent(sys, g, EndEvent(str, f));
      DeliverOne(sys, g, EndEvent(str, f), past);
      assert RestOf(str, f, k) == [EndEvent(str, f)];
    } else {
      var e := Event(str, f[0], Some(f[k]), f[k..], k, 0);
      RestStep(str, f, k);
      ConstantEvent(sys, g, e);
      DeliverCons(sys, g, e, RestOf(str, f, k + 1), past);
      ConstantRest(sys, ConstantMeans(g, f[0]), str, f, k + 1, past + [Delivered(e, 0, KeepGoing)]);
    }
  }

  lemma {:induction false} MultiRest(sys: System, g: Globals, str: string, f: seq<string>, k: nat, past: seq<Delivered>)
    requires 1 <= k <= |f| && Multi(f[0]) && NonEmptyWords(f)
    ensures var o := Deliver(Handler(sys), g, RestOf(str, f, k), past);
            o.state == ValuesMean(sys, g, f[0], f[k..]) && o.ret == 0
    decreases |f| - k
  {
    if k == |f| {
      MultiEnd(sys, g, EndEvent(str, f));
      DeliverOne(sys, g, EndEvent(str, f), past);
      assert RestOf(str, f, k) == [EndEvent(str, f)] && f[k..] == [];
    } else {
      var e := Event(str, f[0], Some(f[k]), f[k..], k, 0);
      RestStep(str, f, k);
      MultiValue(sys, g, e, f[k]);
      DeliverCons(sys, g, e, RestOf(str, f, k + 1), past);
      MultiRest(sys, ValueMeans(sys, g, f[0], f[k]), str, f, k + 1, past + [Delivered(e, 0, KeepGoing)]);
      assert f[k..][1..] == f[k + 1..];
    }
  }

  lemma FirstOnlyRest(sys: System, g: Globals, str: string, f: seq<string>, past: seq<Delivered>)
    requires f != [] && FirstOnly(f[0]) && NonEmptyWords(f)
    ensures var o := Deliver(Handler(sys), g, RestOf(str, f, 1), past);
            Meant(o.state, o.ret) == if |f| == 1 then Meant(g, 0) else FirstOnlyMeans(sys, g, f[0], f[1..])
  {
    if |f| == 1 {
      FirstOnlyEvent(sys, g, EndEvent(str, f));
      DeliverOne(sys, g, EndEvent(str, f), past);
      assert RestOf(str, f, 1) == [EndEvent(str, f)];
    } else {
      var e := Event(str, f[0], Some(f[1]), f[1..], 1, 0);
      RestStep(str, f, 1);
      FirstOnlyEvent(sys, g, e);
      DeliverCons(sys, g, e, RestOf(str, f, 2), past);
    }
  }

  lemma EventsMean(sys: System, g: Globals, str: string, f: seq<string>, past: seq<Delivered>)
    requires f != [] && NonEmptyWords(f)
    ensures var o := Deliver(Handler(sys), g, EventsWith(str, f), past);
            Meant(o.state, o.ret) == Means(sys, g, str, f)
  {
    var e, rest := Event(str, f[0], None, f, 0, -1), RestOf(str, f, 1);
    EventsStep(str, f);
    DeliverCons(sys, g, e, rest, past);
    var next := past + [Delivered(e, 0, KeepGoing)];
    if Constant(f[0]) {
      ConstantEvent(sys, g, e);
      ConstantRest(sys, ConstantMeans(g, f[0]), str, f, 1, next);
    } else if StartOnly(f[0]) {
      StartOnlyEvent(sys, g, e);
    } else if FirstOnly(f[0]) {
      FirstOnlyEvent(sys, g, e);
      FirstOnlyRest(sys, g, str, f, next);
    } else if RootFlagsKey(f[0]) {
      RootFlagsEvent(sys, g, e);
    } else {
      MultiStart(sys, g, e);
      MultiRest(sys, StartMeans(sys, g, f), str, f, 1, next);
    }
  }

  // ---- whole command lines ------------------------------------------------------------------------------

  function ArgMeans(sys: System, g: Globals, arg: Option<string>): Meant {
    if arg.None? || FieldsOf(arg.value) == [] then Meant(g, 0) else Means(sys, g, arg.value, FieldsOf(arg.value))
  }

  /** What a command line says: its arguments one after the other, up to the first that fails. */
  function CmdlineMeans(sys: System, g: Globals, argv: seq<Option<string>>): Meant
    decreases argv
  {
    if argv == [] then Meant(g, 0)
    else
      var m := ArgMeans(sys, g, argv[0]);
      if m.ret != 0 then m else CmdlineMeans(sys, m.state, argv[1..])
  }

  /** Delivering the events of an argument does what its words say. */
  lemma ArgumentMeans(sys: System, g: Globals, arg: Option<string>, past: seq<Delivered>)
    ensures var o := Deliver(Handler(sys), g, EventsOf(arg), past); Meant(o.state, o.ret) == ArgMeans(sys, g, arg)
  {
    if arg.Some? && FieldsOf(arg.value) != [] {
      TokensAreNonEmpty(StrSplit.Strtok(arg.value, {'='}), {','});
      EventsMean(sys, g, arg.value, FieldsOf(arg.value), past);
    }
  }

  lemma {:induction false} RunMeans(sys: System, g: Globals, argv: seq<Option<string>>, past: seq<Delivered>)
    ensures var o := ProcessArgs(Handler(sys), g, argv, past); Meant(o.state, o.ret) == CmdlineMeans(sys, g, argv)
    decreases argv
  {
    if argv != [] {
      ArgumentMeans(sys, g, argv[0], past);
      NeverStops(sys, g, EventsOf(argv[0]), past);
      var o := Deliver(Handler(sys), g, EventsOf(argv[0]), past);
      if o.ret == 0 {
        RunMeans(sys, o.state, argv[1..], o.trace);
      }
    }
  }

  /**
  The splitter, its callback protocol and the handlers together: for every command line and every
  state before it, processing it has the effect and the return code that its words say.
  */
  lemma CmdlineDoesWhatItSays(sys: System, g: Globals, argv: seq<Option<string>>)
    ensures Meant(Run(sys, g, argv).state, Run(sys, g, argv).ret) == CmdlineMeans(sys, g, argv)
  {
    RunMeans(sys, g, argv, []);
  }

  // ---- the new root -------------------------------------------------------------------------------------

  /** The type of the new root after one more argument. */
  function FstypeAfter(arg: Option<string>, before: Option<string>): Option<string> {
    if FirstField(arg) == Some("stagedive") then Some("zdisk")
    else if FirstField(arg) == Some("rootfstype") && |FieldsOf(arg.value)| > 1 then Some(FieldsOf(arg.value)[1])
    else before
  }

  predicate Enables(arg: Option<string>) {
    FirstField(arg) == Some("stagedive") || (FirstField(arg) == Some("root") && |FieldsOf(arg.value)| > 1)
  }

  function LastFstype(argv: seq<Option<string>>, before: Option<string>): Option<string> {
    if argv == [] then before else LastFstype(argv[1..], FstypeAfter(argv[0], before))
  }

  lemma {:induction false} ValuesKeepRoot(sys: System, g: Globals, key: string, words: seq<string>)
    ensures ValuesMean(sys, g, key, words).newroot == g.newroot
    decreases words
  {
    if words != [] {
      ValuesKeepRoot(sys, ValueMeans(sys, g, key, words[0]), key, words[1..]);
    }
  }

  /** What the fields of an argument mean for the type and the enabling of the new root. */
  lemma RootOfFields(sys: System, g: Globals, str: string, f: seq<string>)
    requires f != []
    ensures var m := Means(sys, g, str, f).state.newroot;
            && m.fstype == (if f[0] == "stagedive" then Some("zdisk")
                            else if f[0] == "rootfstype" && |f| > 1 then Some(f[1]) else g.newroot.fstype)
            && (IsEnabled in m.cfg <==>
                  IsEnabled in g.newroot.cfg || f[0] == "stagedive" || (f[0] == "root" && |f| > 1))
  {
    if Multi(f[0]) {
      ValuesKeepRoot(sys, StartMeans(sys, g, f), f[0], f[1..]);
    } else if Constant(f[0]) {
      assert "liram_" <= f[0] ==> f[0][0] == 'l';
    } else if FirstOnly(f[0]) && |f| > 1 {
      assert f[1..][0] == f[1];
    }
  }

  lemma RootOfArg(sys: System, g: Globals, arg: Option<string>)
    ensures var m := ArgMeans(sys, g, arg).state.newroot;
            && m.fstype == FstypeAfter(arg, g.newroot.fstype)
            && (IsEnabled in m.cfg <==> IsEnabled in g.newroot.cfg || Enables(arg))
  {
    if FirstField(arg).Some? {
      RootOfFields(sys, g, arg.value, FieldsOf(arg.value));
    }
  }

  lemma {:induction false} RootOfCmdline(sys: System, g: Globals, argv: seq<Option<string>>)
    requires CmdlineMeans(sys, g, argv).ret == 0
    ensures var m := CmdlineMeans(sys, g, argv).state.newroot;
            && m.fstype == LastFstype(argv, g.newroot.fstype)
            && (IsEnabled in m.cfg <==> IsEnabled in g.newroot.cfg || exists i :: 0 <= i < |argv| && Enables(argv[i]))
    decreases argv
  {
    if argv != [] {
      RootOfArg(sys, g, argv[0]);
      RootOfCmdline(sys, ArgMeans(sys, g, argv[0]).state, argv[1..]);
      if i :| 0 <= i < |argv| && Enables(argv[i]) {
        assert i > 0 ==> Enables(argv[1..][i - 1]);
      }
      if i :| 0 <= i < |argv[1..]| && Enables(argv[1..][i]) {
        assert Enables(argv[i + 1]);
      }
    }
  }

  /**
  Whether the new root is read-only, read off the words of a successful command line alone: the last
  of ro, rw and stagedive is not rw or stagedive, or some root= or stagedive enables the root and the
  last word about its type says squashfs. rootfsflags has no say in it.
  */
  lemma ReadOnlyByWords(sys: System, argv: seq<Option<string>>)
    requires Run(sys, INITIAL, argv).ret == 0
    ensures MountOpts.RdOnly in Postprocess(Run(sys, INITIAL, argv).state).newroot.flags <==>
              || LastRootWord(argv) != Some(false)
              || ((exists i :: 0 <= i < |argv| && Enables(argv[i])) && LastFstype(argv, Some("ext4")) == Some("squashfs"))
  {
    ReadOnlyRoot(sys, argv);
    CmdlineDoesWhatItSays(sys, INITIAL, argv);
    RootOfCmdline(sys, INITIAL, argv);
    PostprocessedRoot(Run(sys, INITIAL, argv).state);
  }

  // ---- the automatic settings -----------------------------------------------------------------------------

  /** What the type of a mount implies, setting by setting. */
  function Implied(fstype: string): set<Cfg> {
    (if fstype in {"auto", "nfs", "cifs"} then {NeedExternal} else {})
    + (if fstype in {"nfs", "cifs"} then {NeedNetwork} else {})
    + (if fstype == "squashfs" then {NeedLoop} else {})
    + (if fstype in {"squashfs", "tmpfs", "devtmpfs", "nfs", "cifs"} then {NoDevice} else {})
    + (if fstype in {"ztmpfs", "zdisk"} then {IsZram} else {})
  }

  function ImpliedSource(fstype: string): Option<string> {
    if fstype in {"tmpfs", "devtmpfs"} then Some("tmpfs")
    else if fstype in {"aufs", "devpts", "mqueue", "overlay", "proc", "ramfs", "sysfs"} then Some(fstype)
    else None
  }

  predicate IsTag(source: Option<string>) {
    source.Some? && ("LABEL=" <= source.value || "UUID=" <= source.value || "PARTUUID=" <= source.value)
  }

  /** With the type known: only what is missing is filled in, and only squashfs forces read-only. */
  lemma AutosetSays(m: Mount)
    requires m.fstype.Some?
    ensures var a, fstype := Autoset(m), m.fstype.value;
            && a.fstype == m.fstype
            && a.source == (if m.source.Some? then m.source else ImpliedSource(fstype))
            && a.opts == (if m.opts.None? && fstype in {"tmpfs", "devtmpfs"} then Some("mode=0755") else m.opts)
            && a.flags == m.flags + (if fstype == "squashfs" then {MountOpts.RdOnly} else {})
            && a.cfg == m.cfg + Implied(fstype) + (if IsTag(a.source) then {NeedFindfs} else {})
  {
    TypeSays(m);
    var t := FstypeDefaults(m);
    assert t.cfg + {} == t.cfg;
  }

  lemma TypeSays(m: Mount)
    requires m.fstype.Some?
    ensures var t, fstype := FstypeDefaults(m), m.fstype.value;
            && t.cfg == m.cfg + Implied(fstype) && t.fstype == m.fstype
            && t.flags == m.flags + (if fstype == "squashfs" then {MountOpts.RdOnly} else {})
            && t.opts == (if m.opts.None? && fstype in {"tmpfs", "devtmpfs"} then Some("mode=0755") else m.opts)
            && t.source == (if m.source.None? && fstype in {"tmpfs", "devtmpfs"} then Some("tmpfs") else m.source)
  {
    assert m.flags + {} == m.flags;
  }

  /** Without a type only a source given as a tag matters. */
  lemma AutosetWithoutType(m: Mount)
    requires m.fstype.None?
    ensures Autoset(m) == m.(cfg := m.cfg + if IsTag(m.source) then {NeedFindfs} else {})
  {
    assert m.cfg + {} == m.cfg;
  }

  /** The automatic settings are made once and for all. */
  lemma AutosetTwice(m: Mount)
    ensures Autoset(Autoset(m)) == Autoset(m)
  {
    if m.fstype.None? {
      AutosetWithoutType(m);
      AutosetWithoutType(Autoset(m));
    } else {
      AutosetSays(m);
      AutosetSays(Autoset(m));
    }
  }
}
