/** The command line as it is processed: the globals and their mounts are updated in place, event by event. */
module CmdlineProcess {
  import opened Wrappers
  import opened Argsplit
  import opened Cmdline
  import opened CmdlineRuns
  import opened CmdlineMeaning
  import StrSplit
  import MountOpts

  class MountConfig {
    var cfg: set<Cfg>
    var source: Option<string>
    var fstype: Option<string>
    var flags: MountOpts.Flags
    var opts: Option<string>

    function View(): Mount
      reads this
    {
      Mount(cfg, source, fstype, flags, opts)
    }

    constructor (m: Mount)
      ensures View() == m
    {
      cfg, source, fstype, flags, opts := m.cfg, m.source, m.fstype, m.flags, m.opts;
    }

    /** mount_config_autoset(). */
    method AutosetInPlace()
      modifies this
      ensures View() == Autoset(old(View()))
    {
      if fstype.Some? {
        var name := fstype.value;
        if name == "auto" {
          cfg := cfg + {NeedExternal};
        } else if name == "squashfs" {
          flags := flags + {MountOpts.RdOnly};
          cfg := cfg + {NeedLoop, NoDevice};
        } else if name == "tmpfs" || name == "devtmpfs" {
          if opts.None? {
            opts := Some("mode=0755");
          }
          if source.None? {
            source := Some("tmpfs");
          }
          cfg := cfg + {NoDevice};
        } else if name == "nfs" || name == "cifs" {
          cfg := cfg + {NeedExternal, NeedNetwork, NoDevice};
        } else if name == "ztmpfs" || name == "zdisk" {
          cfg := cfg + {IsZram};
        }
        if source.None? && name in {"aufs", "devpts", "mqueue", "overlay", "proc", "ramfs", "sysfs"} {
          source := Some(name);
        }
      }
      if source.Some? {
        if "LABEL=" <= source.value || "UUID=" <= source.value || "PARTUUID=" <= source.value {
          cfg := cfg + {NeedFindfs};
        }
      }
    }

    /** _initramfs_cmdline_process_arg__sfsmount_any(). */
    method ProcessSfs(e: Event)
      modifies this
      ensures View() == SfsArg(old(View()), e)
    {
      if e.endOfArg < 0 {
        cfg := cfg + {IsEnabled};
      } else if HasValue(e) {
        if e.value.value == "rw" {
          flags := flags - {MountOpts.RdOnly};
        } else if e.value.value == "ro" {
          flags := flags + {MountOpts.RdOnly};
        } else if e.value.value[0] == '/' {
          source := e.value;
        }
      }
    }

    /** _initramfs_cmdline_process_arg__rootfsflags(), which looks for the '=' in the argument itself. */
    method ProcessRootFlags(str: string) returns (ret: int)
      modifies this
      ensures match RootFlagsArg(old(View()), str)
              case None => ret == -1 && View() == old(View())
              case Some(m) => ret == 0 && View() == m
    {
      var k := 0;
      while k < |str| && str[k] != '='
        invariant 0 <= k <= |str|
        invariant forall i :: 0 <= i < k ==> str[i] != '='
      {
        k := k + 1;
      }
      assert k == StrSplit.Span(str, {'='}, false);
      if k == |str| {
        return -1;
      }
      var valstr := str[k + 1..];
      if valstr == "" {
        opts, flags := None, {};
      } else {
        var r, newFlags, list := MountOpts.ParseMountOptsStr(Some(valstr));
        opts, flags := Some(StrSplit.Join(",", list)), newFlags;
      }
      return 0;
    }
  }

  class InitramfsGlobals {
    var rootRoStatus: DBool
    var wantNewrootMount: DBool
    var wantNewrootUsrMount: DBool
    const newrootMount: MountConfig
    const newrootUsrMount: MountConfig
    var loadModules: seq<string>
    var realInit: Option<string>
    var rootfindDelay: nat
    var doshell: set<ShellMode>
    var zramAutoswapSizeSpec: Option<string>

    ghost predicate Valid()
    {
      newrootMount != newrootUsrMount
    }

    function View(): Globals
      reads this, newrootMount, newrootUsrMount
    {
      Globals(rootRoStatus, wantNewrootMount, wantNewrootUsrMount, newrootMount.View(), newrootUsrMount.View(),
              loadModules, realInit, rootfindDelay, doshell, zramAutoswapSizeSpec)
    }

    /** _initramfs_globals_init(). */
    constructor ()
      ensures Valid() && View() == INITIAL && fresh(newrootMount) && fresh(newrootUsrMount)
      ensures rootRoStatus == {} == wantNewrootMount == wantNewrootUsrMount && loadModules == [] && doshell == {}
      ensures realInit == None == zramAutoswapSizeSpec && rootfindDelay == 0
      ensures newrootMount.View() == Mount({}, None, Some("ext4"), {}, None)
      ensures newrootUsrMount.View() ==
              Mount({NeedLoop}, Some("/newroot/usr.squashfs"), Some("squashfs"), {MountOpts.RdOnly}, None)
    {
      rootRoStatus, wantNewrootMount, wantNewrootUsrMount := {}, {}, {};
      newrootMount := new MountConfig(INITIAL.newroot);
      newrootUsrMount := new MountConfig(INITIAL.usr);
      loadModules, realInit, rootfindDelay, doshell, zramAutoswapSizeSpec := [], None, 0, {}, None;
    }

    method ProcessShell(e: Event)
      modifies this`doshell
      ensures doshell == ShellArg(old(doshell), e)
    {
      if e.endOfArg < 0 {
        doshell := {OnError};
        if |e.argv| < 2 {
          doshell := doshell + {Loop};
        }
      } else if HasValue(e) {
        match e.value.value {
          case "never" => doshell := {};
          case "fail" => doshell := doshell + {OnError};
          case "error" => doshell := doshell + {OnError};
          case "once" => doshell := doshell + {Once};
          case "pre" => doshell := doshell + {Preswitch};
          case "preswitch" => doshell := doshell + {Preswitch};
          case "always" => doshell := doshell + {Loop};
          case _ =>
        }
      }
    }

    method ProcessRootfind(sys: System, e: Event)
      modifies this`rootfindDelay
      ensures rootfindDelay == RootfindArg(sys, old(rootfindDelay), e)
    {
      if e.endOfArg < 0 {
        if rootfindDelay == 0 {
          rootfindDelay := 50;
        }
      } else if HasValue(e) {
        var n := sys.toLong(e.value.value);
        rootfindDelay := if n.None? || n.value < 0 || n.value > 10000 then 50 else n.value;
      }
    }

    method ProcessSource(e: Event, ghost sys: System) returns (ret: int, flow: Flow)
      requires Valid() && KeyOf(e.key) == RootSource
      modifies newrootMount
      ensures Reply(View(), ret, flow) == Handle(sys, old(View()), e)
    {
      ret, flow := 0, KeepGoing;
      if HasValue(e) {
        newrootMount.source := e.value;
        newrootMount.cfg := newrootMount.cfg + {IsEnabled};
        flow := NextArg;
      }
    }

    method ProcessFstype(e: Event, ghost sys: System) returns (ret: int, flow: Flow)
      requires Valid() && KeyOf(e.key) == RootFstype
      modifies newrootMount
      ensures Reply(View(), ret, flow) == Handle(sys, old(View()), e)
    {
      ret, flow := 0, KeepGoing;
      if e.endOfArg == 0 {
        if HasValue(e) {
          newrootMount.fstype := e.value;
        }
        flow := NextArg;
      }
    }

    method ProcessFlags(e: Event, ghost sys: System) returns (ret: int, flow: Flow)
      requires Valid() && KeyOf(e.key) == RootFlags
      modifies newrootMount
      ensures Reply(View(), ret, flow) == Handle(sys, old(View()), e)
    {
      ret := newrootMount.ProcessRootFlags(e.str);
      flow := if ret == 0 then NextArg else KeepGoing;
    }

    method ProcessStagedive(e: Event, ghost sys: System) returns (ret: int, flow: Flow)
      requires Valid() && KeyOf(e.key) == Stagedive
      modifies this`rootRoStatus, this`wantNewrootMount, newrootMount
      ensures Reply(View(), ret, flow) == Handle(sys, old(View()), e)
    {
      newrootMount.source, newrootMount.fstype := Some("zroot"), Some("zdisk");
      rootRoStatus := {No};
      newrootMount.opts := None;
      newrootMount.cfg := newrootMount.cfg + {IsEnabled};
      wantNewrootMount := {Yes};
      return 0, NextArg;
    }

    /** _initramfs_cmdline_process_arg(), the callback: one event of one argument. */
    method ProcessArg(sys: System, e: Event) returns (ret: int, flow: Flow)
      requires Valid()
      modifies this, newrootMount, newrootUsrMount
      ensures Reply(View(), ret, flow) == Handle(sys, old(View()), e)
    {
      ret, flow := 0, KeepGoing;
      match KeyOf(e.key) {
        case Modprobe =>
          if HasValue(e) {
            loadModules := loadModules + [e.value.value];
          }
        case Init =>
          if e.endOfArg == 0 && e.value.Some? {
            realInit := e.value;
          }
        case RootRo =>
          if e.endOfArg < 0 {
            rootRoStatus, flow := {Yes}, NextArg;
          }
        case RootRw =>
          if e.endOfArg < 0 {
            rootRoStatus, flow := {No}, NextArg;
          }
        case RootNomount => wantNewrootMount := {No};
        case Rootfind => ProcessRootfind(sys, e);
        case UsrSfs =>
          if No !in wantNewrootUsrMount {
            if e.endOfArg == 0 && e.value == Some("builtin") {
              wantNewrootUsrMount := wantNewrootUsrMount + {Forced};
            } else {
              newrootUsrMount.ProcessSfs(e);
            }
          }
        case UsrNomount => wantNewrootUsrMount := {No};
        case ZramSwap =>
          if e.endOfArg < 0 {
            zramAutoswapSizeSpec :=
              Some(if |e.argv| < 2 || e.argv[1] == "" then GuessFraction(sys.memoryM) else e.argv[1]);
          }
        case ZramDisk =>
          if e.endOfArg == 0 {
            ret, flow := sys.zramDisk(e.argv), NextArg;
          }
        case Shell => ProcessShell(e);
        case Liram => wantNewrootMount := {No};
        case RootSource => ret, flow := ProcessSource(e, sys);
        case RootFstype => ret, flow := ProcessFstype(e, sys);
        case RootFlags => ret, flow := ProcessFlags(e, sys);
        case Stagedive => ret, flow := ProcessStagedive(e, sys);
        case DontCare =>
      }
    }

    /** The splitter's loop over the events of one argument, each of them handled in place. */
    method ProcessEvents(sys: System, arg: string, f: seq<string>, ghost past: seq<Delivered>)
      returns (ret: int, flow: Flow, ghost trace: seq<Delivered>)
      requires Valid() && f == FieldsOf(arg) && f != []
      modifies this, newrootMount, newrootUsrMount
      ensures var o := Deliver(Handler(sys), old(View()), EventsOf(Some(arg)), past);
              View() == o.state && ret == o.ret && trace == o.trace
              && flow == if o.flow == NextArg then KeepGoing else o.flow
    {
      ghost var events := EventsOf(Some(arg));
      ghost var o := Deliver(Handler(sys), View(), events, past);
      var e := Event(arg, f[0], None, f, 0, -1);
      assert events[0] == e;
      ret, flow := ProcessArg(sys, e);
      trace := past + [Delivered(e, ret, flow)];
      var iter := 1;
      while iter < |f| && ret == 0 && flow == KeepGoing
        invariant 1 <= iter <= |f|
        invariant o == if Continues(ret, flow) then Deliver(Handler(sys), View(), events[iter..], trace)
                       else Outcome(View(), ret, flow, trace)
      {
        e := Event(arg, f[0], Some(f[iter]), f[iter..], iter, 0);
        assert events[iter..][0] == e && events[iter..][1..] == events[iter + 1..];
        ret, flow := ProcessArg(sys, e);
        trace := trace + [Delivered(e, ret, flow)];
        iter := iter + 1;
      }
      if ret == 0 && flow == KeepGoing {
        e := Event(arg, f[0], None, [], 0, 1);
        assert events[|f|..][0] == e && events[|f|..][1..] == [];
        ret, flow := ProcessArg(sys, e);
        trace := trace + [Delivered(e, ret, flow)];
      }
      if flow == NextArg {
        flow := KeepGoing;
      }
    }

    /** The splitter's loop over all arguments. */
    method ProcessAll(sys: System, argv: seq<Option<string>>) returns (ret: int)
      requires Valid()
      modifies this, newrootMount, newrootUsrMount
      ensures var o := Run(sys, old(View()), argv); View() == o.state && ret == o.ret
    {
      ghost var o := Run(sys, View(), argv);
      ghost var trace := [];
      var flow := KeepGoing;
      ret := 0;
      var k := 0;
      while k < |argv| && flow == KeepGoing && ret == 0
        invariant 0 <= k <= |argv| && flow != NextArg
        invariant if Aborts(ret, flow) then o.state == View() && o.ret == ret
                  else o == ProcessArgs(Handler(sys), View(), argv[k..], trace)
      {
        assert argv[k..][1..] == argv[k + 1..];
        if argv[k].Some? {
          var arr := SplitArg(argv[k].value);
          if |arr| > 0 {
            ret, flow, trace := ProcessEvents(sys, argv[k].value, arr, trace);
          }
        }
        k := k + 1;
      }
    }

    /** _initramfs_postprocess_cmdline(). */
    method PostprocessInPlace()
      requires Valid()
      modifies newrootMount, newrootUsrMount
      ensures View() == Postprocess(old(View()))
    {
      if No !in rootRoStatus {
        newrootMount.flags := newrootMount.flags + {MountOpts.RdOnly};
      } else {
        newrootMount.flags := newrootMount.flags - {MountOpts.RdOnly};
      }
      if IsEnabled in newrootMount.cfg {
        newrootMount.AutosetInPlace();
      }
      if IsEnabled in newrootUsrMount.cfg {
        newrootUsrMount.AutosetInPlace();
      }
    }

    /**
    _initramfs_process_cmdline(): what the words of the arguments say, then the postprocessing. Whatever
    the globals were before, a successful command line leaves the new root read-only as its last word on that says,
    has queued the modules in written order, and left the /usr mount as it was before the first
    nousrmount, the automatic settings aside.
    */
    method ProcessCmdline(sys: System, argv: seq<Option<string>>) returns (ret: int)
      requires Valid()
      modifies this, newrootMount, newrootUsrMount
      ensures var m := CmdlineMeans(sys, old(View()), argv);
              ret == m.ret && View() == if ret == 0 then Postprocess(m.state) else m.state
      ensures ret == 0 ==>
                (MountOpts.RdOnly in newrootMount.flags <==>
                   || No !in AsDecision(LastRootWord(argv), old(rootRoStatus))
                   || (IsEnabled in newrootMount.cfg && newrootMount.fstype == Some("squashfs")))
      ensures ret == 0 ==> loadModules == old(loadModules) + ModulesOfAll(argv)
      ensures ret == 0 ==>
                forall k :: 0 <= k < |argv| && FirstField(argv[k]) == Some("nousrmount") ==>
                  && No in wantNewrootUsrMount
                  && newrootUsrMount.View() == AutosetIfEnabled(Run(sys, old(View()), argv[..k]).state.usr)
    {
      ghost var g := View();
      ret := ProcessAll(sys, argv);
      CmdlineDoesWhatItSays(sys, g, argv);
      if ret == 0 {
        RootRoOfRun(sys, g, argv, []);
        PostprocessedRoot(Run(sys, g, argv).state);
        ModulesInWrittenOrder(sys, g, argv, []);
        UsrAfterNomount(sys, g, argv);
        PostprocessInPlace();
      }
    }
  }
}
