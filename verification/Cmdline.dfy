/** The kernel command line and the boot configuration: init/src/initramfs/cmdline.c, mount_config.c. */
module Cmdline {
  import opened Wrappers
  import opened Argsplit
  import MountOpts
  import StrSplit

  // ---- the globals ----------------------------------------------------------------------------------

  datatype DBit = Forced | No | Yes

  /** A decision: empty while undecided. */
  type DBool = set<DBit>

  datatype Cfg = NeedExternal | IsEnabled | NeedFindfs | NeedNetwork | NeedLoop | NoDevice | IsZram

  datatype Mount = Mount(cfg: set<Cfg>, source: Option<string>, fstype: Option<string>, flags: MountOpts.Flags,
                         opts: Option<string>)

  datatype ShellMode = OnError | Once | Preswitch | Loop

  datatype Globals = Globals(
    rootRo: DBool, wantNewroot: DBool, wantUsr: DBool, newroot: Mount, usr: Mount, modules: seq<string>,
    realInit: Option<string>, rootfindDelay: nat, doshell: set<ShellMode>, autoswap: Option<string>)

  /** _initramfs_globals_init(). */
  const INITIAL := Globals(
    {}, {}, {}, Mount({}, None, Some("ext4"), {}, None),
    Mount({NeedLoop}, Some("/newroot/usr.squashfs"), Some("squashfs"), {MountOpts.RdOnly}, None),
    [], None, 0, {}, None)

  /** The outside world: what zram_disk_simple() returns, str_to_long(), and the memory size in MiB. */
  datatype System = System(zramDisk: seq<string> -> int, toLong: string -> Option<int>, memoryM: nat)

  // ---- keys -----------------------------------------------------------------------------------------

  datatype Key =
    | DontCare | Modprobe | Init | RootRo | RootRw | RootNomount | RootSource | RootFstype | RootFlags
    | Rootfind | Stagedive | UsrSfs | UsrNomount | ZramSwap | ZramDisk | Shell | Liram

  function KeyOf(key: string): Key {
    if key == "modprobe" || key == "load_modules" then Modprobe
    else if key == "init" || key == "real_init" then Init
    else if key == "ro" then RootRo
    else if key == "rw" then RootRw
    else if key == "norootmount" then RootNomount
    else if key == "root" then RootSource
    else if key == "rootfstype" then RootFstype
    else if key == "rootfsflags" || key == "rootflags" then RootFlags
    else if key == "rootfind" then Rootfind
    else if key == "squashed_usr" then UsrSfs
    else if key == "zram_swap" then ZramSwap
    else if key == "zram_disk" || key == "zdisk" then ZramDisk
    else if key == "xshell" then Shell
    else if key == "liram" || "liram_" <= key then Liram
    else if key == "stagedive" then Stagedive
    else if key == "nousrmount" then UsrNomount
    else DontCare
  }

  // ---- the handlers ---------------------------------------------------------------------------------

  function Enable(m: Mount): Mount {
    m.(cfg := m.cfg + {IsEnabled})
  }

  function ShellArg(doshell: set<ShellMode>, e: Event): set<ShellMode> {
    if e.endOfArg < 0 then {OnError} + if |e.argv| < 2 then {Loop} else {}
    else if e.endOfArg > 0 || e.value.None? then doshell
    else if e.value.value == "never" then {}
    else if e.value.value in {"fail", "error"} then doshell + {OnError}
    else if e.value.value == "once" then doshell + {Once}
    else if e.value.value in {"pre", "preswitch"} then doshell + {Preswitch}
    else if e.value.value == "always" then doshell + {Loop}
    else doshell
  }

  function SfsArg(m: Mount, e: Event): Mount {
    if e.endOfArg < 0 then Enable(m)
    else if e.endOfArg > 0 || e.value.None? || e.value.value == "" then m
    else if e.value.value == "rw" then m.(flags := m.flags - {MountOpts.RdOnly})
    else if e.value.value == "ro" then m.(flags := m.flags + {MountOpts.RdOnly})
    else if e.value.value[0] == '/' then m.(source := e.value)
    else m
  }

  function RootfindArg(sys: System, delay: nat, e: Event): nat {
    if e.endOfArg < 0 then if delay == 0 then 50 else delay
    else if e.endOfArg > 0 || e.value.None? || e.value.value == "" then delay
    else match sys.toLong(e.value.value)
      case None => 50
      case Some(n) => if n < 0 || n > 10000 then 50 else n
  }

  function GuessFraction(memoryM: nat): string {
    if memoryM >= 40000 then "/7" else if memoryM >= 30000 then "/6" else if memoryM >= 20000 then "/5"
    else if memoryM >= 10000 then "/4" else "/2"
  }

  /** What follows the first '=' of an argument. */
  function AfterEquals(str: string): Option<string> {
    var n := StrSplit.Span(str, {'='}, false);
    if n == |str| then None else Some(str[n + 1..])
  }

  /** rootfsflags: replaces flags and options of the new root; an argument without '=' is an error. */
  function RootFlagsArg(m: Mount, str: string): Option<Mount> {
    match AfterEquals(str)
    case None => None
    case Some(s) =>
      if s == "" then Some(m.(flags := {}, opts := None))
      else
        var p := MountOpts.Parse(s);
        Some(m.(flags := p.flags, opts := Some(StrSplit.Join(",", p.opts))))
  }

  predicate HasValue(e: Event) {
    e.endOfArg == 0 && e.value.Some? && e.value.value != ""
  }

  /** _initramfs_cmdline_process_arg(). */
  function Handle(sys: System, g: Globals, e: Event): Reply<Globals> {
    match KeyOf(e.key)
    case DontCare => Reply(g, 0, KeepGoing)
    case Modprobe =>
      Reply(if HasValue(e) then g.(modules := g.modules + [e.value.value]) else g, 0, KeepGoing)
    case Init =>
      Reply(if e.endOfArg == 0 && e.value.Some? then g.(realInit := e.value) else g, 0, KeepGoing)
    case RootRo => if e.endOfArg < 0 then Reply(g.(rootRo := {Yes}), 0, NextArg) else Reply(g, 0, KeepGoing)
    case RootRw => if e.endOfArg < 0 then Reply(g.(rootRo := {No}), 0, NextArg) else Reply(g, 0, KeepGoing)
    case RootNomount => Reply(g.(wantNewroot := {No}), 0, KeepGoing)
    case RootSource =>
      if HasValue(e) then Reply(g.(newroot := Enable(g.newroot.(source := e.value))), 0, NextArg)
      else Reply(g, 0, KeepGoing)
    case RootFstype =>
      if e.endOfArg == 0 then
        Reply(if HasValue(e) then g.(newroot := g.newroot.(fstype := e.value)) else g, 0, NextArg)
      else Reply(g, 0, KeepGoing)
    case RootFlags =>
      (match RootFlagsArg(g.newroot, e.str)
       case None => Reply(g, -1, KeepGoing)
       case Some(m) => Reply(g.(newroot := m), 0, NextArg))
    case Rootfind => Reply(g.(rootfindDelay := RootfindArg(sys, g.rootfindDelay, e)), 0, KeepGoing)
    case Stagedive =>
      var m := Enable(g.newroot.(source := Some("zroot"), fstype := Some("zdisk"), opts := None));
      Reply(g.(newroot := m, rootRo := {No}, wantNewroot := {Yes}), 0, NextArg)
    case UsrSfs =>
      if No in g.wantUsr then Reply(g, 0, KeepGoing)
      else if e.endOfArg == 0 && e.value == Some("builtin") then
        Reply(g.(wantUsr := g.wantUsr + {Forced}), 0, KeepGoing)
      else Reply(g.(usr := SfsArg(g.usr, e)), 0, KeepGoing)
    case UsrNomount => Reply(g.(wantUsr := {No}), 0, KeepGoing)
    case ZramSwap =>
      if e.endOfArg >= 0 then Reply(g, 0, KeepGoing)
      else
        var spec := if |e.argv| < 2 || e.argv[1] == "" then GuessFraction(sys.memoryM) else e.argv[1];
        Reply(g.(autoswap := Some(spec)), 0, KeepGoing)
    case ZramDisk =>
      if e.endOfArg != 0 then Reply(g, 0, KeepGoing) else Reply(g, sys.zramDisk(e.argv), NextArg)
    case Shell => Reply(g.(doshell := ShellArg(g.doshell, e)), 0, KeepGoing)
    case Liram => Reply(g.(wantNewroot := {No}), 0, KeepGoing)
  }

  // ---- after the arguments --------------------------------------------------------------------------

  /** mount_config_autoset(). */
  function Autoset(m: Mount): Mount {
    Findfs(DefaultSource(FstypeDefaults(m)))
  }

  function FstypeDefaults(m: Mount): Mount {
    if m.fstype.None? then m
    else if m.fstype.value == "auto" then m.(cfg := m.cfg + {NeedExternal})
    else if m.fstype.value == "squashfs" then
      m.(flags := m.flags + {MountOpts.RdOnly}, cfg := m.cfg + {NeedLoop, NoDevice})
    else if m.fstype.value in {"tmpfs", "devtmpfs"} then
      m.(opts := if m.opts.None? then Some("mode=0755") else m.opts,
         source := if m.source.None? then Some("tmpfs") else m.source,
         cfg := m.cfg + {NoDevice})
    else if m.fstype.value in {"nfs", "cifs"} then m.(cfg := m.cfg + {NeedExternal, NeedNetwork, NoDevice})
    else if m.fstype.value in {"ztmpfs", "zdisk"} then m.(cfg := m.cfg + {IsZram})
    else m
  }

  function DefaultSource(m: Mount): Mount {
    if m.fstype.Some? && m.source.None? &&
       m.fstype.value in {"aufs", "devpts", "mqueue", "overlay", "proc", "ramfs", "sysfs"}
    then m.(source := m.fstype) else m
  }

  function Findfs(m: Mount): Mount {
    if m.source.Some? && ("LABEL=" <= m.source.value || "UUID=" <= m.source.value || "PARTUUID=" <= m.source.value)
    then m.(cfg := m.cfg + {NeedFindfs}) else m
  }

  function AutosetIfEnabled(m: Mount): Mount {
    if IsEnabled in m.cfg then Autoset(m) else m
  }

  /** _initramfs_postprocess_cmdline(). */
  function Postprocess(g: Globals): Globals {
    var flags := if No !in g.rootRo then g.newroot.flags + {MountOpts.RdOnly} else g.newroot.flags - {MountOpts.RdOnly};
    g.(newroot := AutosetIfEnabled(g.newroot.(flags := flags)), usr := AutosetIfEnabled(g.usr))
  }

  function Handler(sys: System): Callback<Globals> {
    (g: Globals, e: Event) => Handle(sys, g, e)
  }

  function Run(sys: System, g: Globals, argv: seq<Option<string>>): Outcome<Globals> {
    ProcessArgs(Handler(sys), g, argv, [])
  }
}
