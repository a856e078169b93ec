/** What holds after any command line, whatever its arguments and their order. */
module CmdlineRuns {
  import opened Wrappers
  import opened Argsplit
  import opened Cmdline
  import MountOpts
  import StrSplit

  /** The word before the '=' of an argument; an argument without fields causes no events at all. */
  function FirstField(arg: Option<string>): Option<string> {
    if arg.None? || FieldsOf(arg.value) == [] then None else Some(FieldsOf(arg.value)[0])
  }

  /** Which words are looked up as which keys. */
  lemma KeyWords(key: string)
    ensures KeyOf(key) == RootRo <==> key == "ro"
    ensures KeyOf(key) == RootRw <==> key == "rw"
    ensures KeyOf(key) == Stagedive <==> key == "stagedive"
    ensures KeyOf(key) == Modprobe <==> key == "modprobe" || key == "load_modules"
    ensures KeyOf(key) == UsrNomount <==> key == "nousrmount"
    ensures KeyOf(key) == RootSource <==> key == "root"
    ensures KeyOf(key) == RootFstype <==> key == "rootfstype"
  {
    assert "liram_" <= key ==> key[0] == 'l';
    assert "stagedive"[0] == 's' && "nousrmount"[0] == 'n';
  }

  ghost predicate AllOf(events: seq<Event>, key: string) {
    forall i :: 0 <= i < |events| ==> events[i].key == key
  }

  /** All events of an argument carry its key, and the first one is the start event. */
  lemma EventsShareTheKey(str: string, f: seq<string>)
    requires f != []
    ensures AllOf(EventsWith(str, f), f[0])
    ensures EventsWith(str, f) != [] && EventsWith(str, f)[0].endOfArg == -1
  {
  }

  lemma HandleNeverStops(sys: System, g: Globals, e: Event)
    ensures Handle(sys, g, e).flow != StopParse
  {
  }

  lemma NeverStops(sys: System, g: Globals, events: seq<Event>, past: seq<Delivered>)
    ensures Deliver(Handler(sys), g, events, past).flow != StopParse
  {
    forall t, e
      ensures Handler(sys)(t, e).flow != StopParse
    {
      HandleNeverStops(sys, t, e);
    }
    DeliverNeverStops(Handler(sys), g, events, past);
  }

  // ---- read-only root -------------------------------------------------------------------------------

  function WordOf(key: string): Option<bool> {
    if key == "ro" then Some(true) else if key == "rw" || key == "stagedive" then Some(false) else None
  }

  /** What an argument says about a read-only root, if anything: "ro" or else "rw" and "stagedive". */
  function RootWord(arg: Option<string>): Option<bool> {
    if FirstField(arg).None? then None else WordOf(FirstField(arg).value)
  }

  function LastRootWord(argv: seq<Option<string>>): Option<bool> {
    if argv == [] then None
    else
      var later := LastRootWord(argv[1..]);
      if later.Some? then later else RootWord(argv[0])
  }

  function AsDecision(word: Option<bool>, otherwise: DBool): DBool {
    match word
    case None => otherwise
    case Some(b) => if b then {Yes} else {No}
  }

  lemma HandleKeepsRootRo(sys: System, g: Globals, e: Event)
    requires KeyOf(e.key) !in {RootRo, RootRw, Stagedive}
    ensures Handle(sys, g, e).state.rootRo == g.rootRo
  {
  }

  lemma HandleSetsRootRo(sys: System, g: Globals, e: Event)
    requires KeyOf(e.key) in {RootRo, RootRw, Stagedive} && e.endOfArg == -1
    ensures var r := Handle(sys, g, e);
            r.ret == 0 && r.flow == NextArg && r.state.rootRo == if KeyOf(e.key) == RootRo then {Yes} else {No}
  {
  }

  lemma RootRoKept(sys: System, g: Globals, events: seq<Event>, key: string, past: seq<Delivered>)
    requires AllOf(events, key) && KeyOf(key) !in {RootRo, RootRw, Stagedive}
    ensures Deliver(Handler(sys), g, events, past).state.rootRo == g.rootRo
  {
    var inv := (t: Globals) => t.rootRo == g.rootRo;
    forall t, i | 0 <= i < |events| && inv(t)
      ensures inv(Handler(sys)(t, events[i]).state)
    {
      HandleKeepsRootRo(sys, t, events[i]);
    }
    DeliverKeeps(Handler(sys), g, events, past, inv);
  }

  lemma FirstAnswerDecides(sys: System, g: Globals, events: seq<Event>, past: seq<Delivered>)
    requires events != [] && !Continues(Handle(sys, g, events[0]).ret, Handle(sys, g, events[0]).flow)
    ensures Deliver(Handler(sys), g, events, past).state == Handle(sys, g, events[0]).state
  {
  }

  lemma RootRoOfEvents(sys: System, g: Globals, events: seq<Event>, key: string, past: seq<Delivered>)
    requires AllOf(events, key) && events != [] && events[0].endOfArg == -1
    ensures Deliver(Handler(sys), g, events, past).state.rootRo == AsDecision(WordOf(key), g.rootRo)
  {
    KeyWords(key);
    if KeyOf(key) in {RootRo, RootRw, Stagedive} {
      HandleSetsRootRo(sys, g, events[0]);
      FirstAnswerDecides(sys, g, events, past);
    } else {
      RootRoKept(sys, g, events, key, past);
    }
  }

  lemma RootRoOfArg(sys: System, g: Globals, arg: Option<string>, past: seq<Delivered>)
    ensures Deliver(Handler(sys), g, EventsOf(arg), past).state.rootRo == AsDecision(RootWord(arg), g.rootRo)
  {
    if arg.Some? && FieldsOf(arg.value) != [] {
      var f := FieldsOf(arg.value);
      EventsShareTheKey(arg.value, f);
      RootRoOfEvents(sys, g, EventsWith(arg.value, f), f[0], past);
    }
  }

  lemma {:induction false} RootRoOfRun(sys: System, g: Globals, argv: seq<Option<string>>, past: seq<Delivered>)
    ensures var o := ProcessArgs(Handler(sys), g, argv, past);
            o.ret == 0 ==> o.state.rootRo == AsDecision(LastRootWord(argv), g.rootRo)
    decreases argv
  {
    if argv != [] {
      RootRoOfArg(sys, g, argv[0], past);
      NeverStops(sys, g, EventsOf(argv[0]), past);
      var o := Deliver(Handler(sys), g, EventsOf(argv[0]), past);
      if o.ret == 0 {
        RootRoOfRun(sys, o.state, argv[1..], o.trace);
      }
    }
  }

  lemma PostprocessedRoot(g: Globals)
    ensures MountOpts.RdOnly in Postprocess(g).newroot.flags <==>
              No !in g.rootRo || (IsEnabled in g.newroot.cfg && g.newroot.fstype == Some("squashfs"))
    ensures Postprocess(g).newroot.fstype == g.newroot.fstype
    ensures IsEnabled in Postprocess(g).newroot.cfg <==> IsEnabled in g.newroot.cfg
  {
  }

  /**
  After any successfully processed command line the new root is read-only exactly if the last
  of ro, rw and stagedive is not rw or stagedive, or the root is enabled with type squashfs;
  rootfsflags has no say in it.
  */
  lemma ReadOnlyRoot(sys: System, argv: seq<Option<string>>)
    requires Run(sys, INITIAL, argv).ret == 0
    ensures var m := Postprocess(Run(sys, INITIAL, argv).state).newroot;
            MountOpts.RdOnly in m.flags <==>
              LastRootWord(argv) != Some(false) || (IsEnabled in m.cfg && m.fstype == Some("squashfs"))
  {
    RootRoOfRun(sys, INITIAL, argv, []);
    PostprocessedRoot(Run(sys, INITIAL, argv).state);
  }

  // ---- modules --------------------------------------------------------------------------------------

  function ModulesOf(arg: Option<string>): seq<string> {
    if FirstField(arg) in {Some("modprobe"), Some("load_modules")} then FieldsOf(arg.value)[1..] else []
  }

  function ModulesOfAll(argv: seq<Option<string>>): seq<string> {
    if argv == [] then [] else ModulesOf(argv[0]) + ModulesOfAll(argv[1..])
  }

  /** The values named by a run of modprobe events. */
  function ValuesOf(events: seq<Event>): seq<string> {
    if events == [] then []
    else if HasValue(events[0]) then [events[0].value.value] + ValuesOf(events[1..])
    else ValuesOf(events[1..])
  }

  lemma HandleModprobe(sys: System, g: Globals, e: Event)
    requires KeyOf(e.key) == Modprobe
    ensures Handle(sys, g, e) ==
            Reply(if HasValue(e) then g.(modules := g.modules + [e.value.value]) else g, 0, KeepGoing)
  {
  }

  lemma HandleKeepsModules(sys: System, g: Globals, e: Event)
    requires KeyOf(e.key) != Modprobe
    ensures Handle(sys, g, e).state.modules == g.modules
  {
  }

  lemma {:induction false} ModprobeEvents(sys: System, g: Globals, events: seq<Event>, key: string, past: seq<Delivered>)
    requires AllOf(events, key) && KeyOf(key) == Modprobe
    ensures Deliver(Handler(sys), g, events, past).state.modules == g.modules + ValuesOf(events)
    decreases events
  {
    if events != [] {
      HandleModprobe(sys, g, events[0]);
      var r := Handler(sys)(g, events[0]);
      ModprobeEvents(sys, r.state, events[1..], key, past + [Delivered(events[0], r.ret, r.flow)]);
    }
  }

  lemma ModulesKept(sys: System, g: Globals, events: seq<Event>, key: string, past: seq<Delivered>)
    requires AllOf(events, key) && KeyOf(key) != Modprobe
    ensures Deliver(Handler(sys), g, events, past).state.modules == g.modules
  {
    var inv := (t: Globals) => t.modules == g.modules;
    forall t, i | 0 <= i < |events| && inv(t)
      ensures inv(Handler(sys)(t, events[i]).state)
    {
      HandleKeepsModules(sys, t, events[i]);
    }
    DeliverKeeps(Handler(sys), g, events, past, inv);
  }

  lemma {:induction false} ValuesOfAppend(a: seq<Event>, b: seq<Event>)
    ensures ValuesOf(a + b) == ValuesOf(a) + ValuesOf(b)
  {
    if a == [] {
      assert a + b == b;
    } else {
      assert (a + b)[1..] == a[1..] + b;
      ValuesOfAppend(a[1..], b);
    }
  }

  lemma {:induction false} ValuesOfValues(str: string, f: seq<string>, k: nat)
    requires 1 <= k <= |f| && forall i :: 0 <= i < |f| ==> f[i] != ""
    ensures ValuesOf(Values(str, f, k)) == f[k..]
    decreases |f| - k
  {
    if k < |f| {
      ValuesOfValues(str, f, k + 1);
      var v := Values(str, f, k);
      assert v[1..] == Values(str, f, k + 1);
      assert f[k..] == [f[k]] + f[k + 1..];
    }
  }

  lemma {:induction false} TokensAreNonEmpty(t: StrSplit.Token, d: StrSplit.Delims)
    requires t.Token? ==> t.text != ""
    ensures forall i :: 0 <= i < |StrSplit.From(t, d)| ==> StrSplit.From(t, d)[i] != ""
    decreases if t.NoToken? then 0 else 1 + |t.rest|
  {
    if t.Token? {
      TokensAreNonEmpty(StrSplit.Strtok(t.rest, d), d);
    }
  }

  lemma ValuesOfEvents(arg: string)
    requires FieldsOf(arg) != []
    ensures ValuesOf(EventsOf(Some(arg))) == FieldsOf(arg)[1..]
  {
    var f := FieldsOf(arg);
    TokensAreNonEmpty(StrSplit.Strtok(arg, {'='}), {','});
    var first, last := Event(arg, f[0], None, f, 0, -1), Event(arg, f[0], None, [], 0, 1);
    ValuesOfAppend([first] + Values(arg, f, 1), [last]);
    ValuesOfAppend([first], Values(arg, f, 1));
    ValuesOfValues(arg, f, 1);
    assert [first][1..] == [] && [last][1..] == [];
    assert ValuesOf([first]) == [] && ValuesOf([last]) == [];
  }

  lemma ModulesOfArg(sys: System, g: Globals, arg: Option<string>, past: seq<Delivered>)
    ensures Deliver(Handler(sys), g, EventsOf(arg), past).state.modules == g.modules + ModulesOf(arg)
  {
    assert g.modules + [] == g.modules;
    if EventsOf(arg) != [] {
      var key := FieldsOf(arg.value)[0];
      EventsShareTheKey(arg.value, FieldsOf(arg.value));
      KeyWords(key);
      if KeyOf(key) == Modprobe {
        ModprobeEvents(sys, g, EventsOf(arg), key, past);
        ValuesOfEvents(arg.value);
      } else {
        ModulesKept(sys, g, EventsOf(arg), key, past);
      }
    }
  }

  lemma Associative(a: seq<string>, b: seq<string>, c: seq<string>)
    ensures a + b + c == a + (b + c)
  {
  }

  /** Modules are queued in the order they are written, over all modprobe and load_modules arguments. */
  lemma {:induction false} ModulesInWrittenOrder(sys: System, g: Globals, argv: seq<Option<string>>, past: seq<Delivered>)
    ensures var o := ProcessArgs(Handler(sys), g, argv, past);
            o.ret == 0 ==> o.state.modules == g.modules + ModulesOfAll(argv)
    decreases argv
  {
    if argv != [] {
      ModulesOfArg(sys, g, argv[0], past);
      NeverStops(sys, g, EventsOf(argv[0]), past);
      var o := Deliver(Handler(sys), g, EventsOf(argv[0]), past);
      if o.ret == 0 {
        ModulesInWrittenOrder(sys, o.state, argv[1..], o.trace);
        Associative(g.modules, ModulesOf(argv[0]), ModulesOfAll(argv[1..]));
      }
    }
  }

  // ---- nousrmount -----------------------------------------------------------------------------------

  lemma HandleFreezesUsr(sys: System, g: Globals, e: Event)
    ensures var t := Handle(sys, g, e).state;
            && (No in g.wantUsr ==> t.usr == g.usr && No in t.wantUsr)
            && (KeyOf(e.key) == UsrNomount ==> t.usr == g.usr && No in t.wantUsr)
  {
  }

  lemma UsrFrozenByEvents(sys: System, g: Globals, events: seq<Event>, past: seq<Delivered>)
    requires No in g.wantUsr
    ensures var t := Deliver(Handler(sys), g, events, past).state; t.usr == g.usr && No in t.wantUsr
  {
    var inv := (t: Globals) => t.usr == g.usr && No in t.wantUsr;
    forall t, i | 0 <= i < |events| && inv(t)
      ensures inv(Handler(sys)(t, events[i]).state)
    {
      HandleFreezesUsr(sys, t, events[i]);
    }
    DeliverKeeps(Handler(sys), g, events, past, inv);
  }

  lemma {:induction false} UsrFrozen(sys: System, g: Globals, argv: seq<Option<string>>, past: seq<Delivered>)
    requires No in g.wantUsr
    ensures var t := ProcessArgs(Handler(sys), g, argv, past).state; t.usr == g.usr && No in t.wantUsr
    decreases argv
  {
    if argv != [] {
      UsrFrozenByEvents(sys, g, EventsOf(argv[0]), past);
      var o := Deliver(Handler(sys), g, EventsOf(argv[0]), past);
      UsrFrozen(sys, o.state, argv[1..], o.trace);
    }
  }

  lemma NoUsrMountArg(sys: System, g: Globals, arg: Option<string>, past: seq<Delivered>)
    requires FirstField(arg) == Some("nousrmount")
    ensures var o := Deliver(Handler(sys), g, EventsOf(arg), past); No in o.state.wantUsr && o.state.usr == g.usr
  {
    EventsShareTheKey(arg.value, FieldsOf(arg.value));
    KeyWords("nousrmount");
    var events := EventsOf(arg);
    HandleFreezesUsr(sys, g, events[0]);
    var r := Handler(sys)(g, events[0]);
    UsrFrozenByEvents(sys, r.state, events[1..], past + [Delivered(events[0], r.ret, r.flow)]);
  }

  /** Once nousrmount was seen, no later argument, squashed_usr included, changes the /usr mount. */
  lemma NoUsrMountIsFinal(sys: System, g: Globals, before: seq<Option<string>>, arg: Option<string>,
                          after: seq<Option<string>>)
    requires FirstField(arg) == Some("nousrmount") && Run(sys, g, before).ret == 0
    ensures var t := Run(sys, g, before + ([arg] + after)).state;
            t.usr == Run(sys, g, before).state.usr && No in t.wantUsr
  {
    ProcessAppend(Handler(sys), g, before, [arg] + after, []);
    var o := Run(sys, g, before);
    forall t, e
      ensures Handler(sys)(t, e).flow != StopParse
    {
      HandleNeverStops(sys, t, e);
    }
    ProcessNeverStops(Handler(sys), g, before, []);
    NoUsrMountArg(sys, o.state, arg, o.trace);
    var p := Deliver(Handler(sys), o.state, EventsOf(arg), o.trace);
    assert ([arg] + after)[1..] == after;
    UsrFrozen(sys, p.state, after, p.trace);
  }

  /** The same, for a nousrmount at place `k` of a successful command line. */
  lemma UsrAfterNomountAt(sys: System, g: Globals, argv: seq<Option<string>>, k: nat)
    requires k < |argv| && FirstField(argv[k]) == Some("nousrmount") && Run(sys, g, argv).ret == 0
    ensures var t := Run(sys, g, argv).state;
            t.usr == Run(sys, g, argv[..k]).state.usr && No in t.wantUsr
  {
    SplitAt(argv, k);
    UsrAfterNomountIn(sys, g, argv, argv[..k], argv[k], argv[k + 1..]);
  }

  lemma SplitAt(argv: seq<Option<string>>, k: nat)
    requires k < |argv|
    ensures argv == argv[..k] + ([argv[k]] + argv[k + 1..])
  {
  }

  lemma UsrAfterNomountIn(sys: System, g: Globals, argv: seq<Option<string>>, before: seq<Option<string>>,
                          arg: Option<string>, after: seq<Option<string>>)
    requires argv == before + ([arg] + after) && FirstField(arg) == Some("nousrmount") && Run(sys, g, argv).ret == 0
    ensures Run(sys, g, argv).state.usr == Run(sys, g, before).state.usr && No in Run(sys, g, argv).state.wantUsr
  {
    PrefixSucceeds(sys, g, before, [arg] + after);
    NoUsrMountIsFinal(sys, g, before, arg, after);
  }

  lemma PrefixSucceeds(sys: System, g: Globals, before: seq<Option<string>>, after: seq<Option<string>>)
    requires Run(sys, g, before + after).ret == 0
    ensures Run(sys, g, before).ret == 0
  {
    ProcessAppend(Handler(sys), g, before, after, []);
  }

  /** In a successful run, every nousrmount finds the /usr mount in the state it keeps to the end. */
  lemma UsrAfterNomount(sys: System, g: Globals, argv: seq<Option<string>>)
    requires Run(sys, g, argv).ret == 0
    ensures forall k :: 0 <= k < |argv| && FirstField(argv[k]) == Some("nousrmount") ==>
              var t := Run(sys, g, argv).state;
              t.usr == Run(sys, g, argv[..k]).state.usr && No in t.wantUsr
  {
    forall k | 0 <= k < |argv| && FirstField(argv[k]) == Some("nousrmount")
      ensures var t := Run(sys, g, argv).state;
              t.usr == Run(sys, g, argv[..k]).state.usr && No in t.wantUsr
    {
      UsrAfterNomountAt(sys, g, argv, k);
    }
  }
}
