/** The argument splitter of init/src/common/strutil/argsplit.c and its callback protocol. */
module Argsplit {
  import opened Wrappers
  import opened StrSplit

  datatype Flow = KeepGoing | NextArg | StopParse

  /** What the callback is told; `endOfArg` is -1 at the start, 0 for a value, 1 at the end. */
  datatype Event = Event(str: string, key: string, value: Option<string>, argv: seq<string>, argno: nat, endOfArg: int)

  datatype Reply<+S> = Reply(state: S, ret: int, flow: Flow)

  type Callback<!S> = (S, Event) -> Reply<S>

  /** An event together with how the callback answered it. */
  datatype Delivered = Delivered(event: Event, ret: int, flow: Flow)

  datatype Outcome<+S> = Outcome(state: S, ret: int, flow: Flow, trace: seq<Delivered>)

  /** The key of an argument and its values: cut once at '=', then at every ','. */
  function FieldsOf(arg: string): seq<string> {
    SplitWith(arg, {'='}, {','})
  }

  function Values(str: string, f: seq<string>, k: nat): (r: seq<Event>)
    requires 1 <= k <= |f|
    ensures |r| == |f| - k
    ensures forall i :: 0 <= i < |r| ==> r[i] == Event(str, f[0], Some(f[k + i]), f[k + i..], k + i, 0)
    decreases |f| - k
  {
    if k == |f| then [] else [Event(str, f[0], Some(f[k]), f[k..], k, 0)] + Values(str, f, k + 1)
  }

  function EventsWith(str: string, f: seq<string>): seq<Event>
    requires f != []
  {
    [Event(str, f[0], None, f, 0, -1)] + Values(str, f, 1) + [Event(str, f[0], None, [], 0, 1)]
  }

  /** Everything an argument can cause: one start, its values in order, one end. */
  function EventsOf(arg: Option<string>): seq<Event> {
    if arg.None? || FieldsOf(arg.value) == [] then [] else EventsWith(arg.value, FieldsOf(arg.value))
  }

  /**
  The fields of any argument: the key is what comes before the first '=', the values are the
  non-empty words between commas after it, further '=' included.
  */
  lemma FieldsOfArgument(key: string, values: string)
    requires key != "" && FreeOf(key, {'='})
    ensures FieldsOf(key + "=" + values) == [key] + Words(values, {','})
    ensures FieldsOf(key) == [key]
    ensures FieldsOf("=" + values) == FieldsOf(values) && FieldsOf("") == []
  {
    SplitAtInitial(key, '=', values, {'='}, {','});
    SplitOfKey(key, {'='}, {','});
    SplitSkipsInitial('=', values, {'='}, {','});
  }

  /** The events of an argument, one by one. */
  lemma EventAt(arg: string, k: nat)
    requires FieldsOf(arg) != [] && k <= |FieldsOf(arg)|
    ensures var f, events := FieldsOf(arg), EventsOf(Some(arg));
            && |events| == |f| + 1 && events[k].str == arg && events[k].key == f[0]
            && (events[k].endOfArg == if k == 0 then -1 else if k < |f| then 0 else 1)
            && (events[k].value == if 0 < k < |f| then Some(f[k]) else None)
            && (events[k].argv == if k < |f| then f[k..] else [])
            && (events[k].argno == if k < |f| then k else 0)
  {
    assert FieldsOf(arg)[0..] == FieldsOf(arg);
  }

  predicate Continues(ret: int, flow: Flow) {
    ret == 0 && flow == KeepGoing
  }

  /** Delivers events until the callback fails or asks for something else; `past` is the trace so far. */
  function Deliver<S>(cb: Callback<S>, s: S, events: seq<Event>, past: seq<Delivered>): Outcome<S>
    decreases events
  {
    if events == [] then Outcome(s, 0, KeepGoing, past)
    else
      var r := cb(s, events[0]);
      var trace := past + [Delivered(events[0], r.ret, r.flow)];
      if Continues(r.ret, r.flow) then Deliver(cb, r.state, events[1..], trace)
      else Outcome(r.state, r.ret, r.flow, trace)
  }

  predicate Aborts(ret: int, flow: Flow) {
    ret != 0 || flow == StopParse
  }

  function ProcessArgs<S>(cb: Callback<S>, s: S, argv: seq<Option<string>>, past: seq<Delivered>): Outcome<S>
    decreases argv
  {
    if argv == [] then Outcome(s, 0, KeepGoing, past)
    else
      var o := Deliver(cb, s, EventsOf(argv[0]), past);
      if Aborts(o.ret, o.flow) then o else ProcessArgs(cb, o.state, argv[1..], o.trace)
  }

  // ---- the loops as written -----------------------------------------------------------------------

  /** _argsplit_process_arg(): the record handed to the callback is updated between calls. */
  method ProcessArg<S>(cb: Callback<S>, s: S, arg: string, f: seq<string>, past: seq<Delivered>)
    returns (state: S, ret: int, flow: Flow, trace: seq<Delivered>)
    requires f == FieldsOf(arg) && f != []
    ensures var o := Deliver(cb, s, EventsOf(Some(arg)), past);
            state == o.state && ret == o.ret && trace == o.trace
            && flow == if o.flow == NextArg then KeepGoing else o.flow
  {
    ghost var events := EventsOf(Some(arg));
    ghost var o := Deliver(cb, s, events, past);
    var asplit := Event(arg, f[0], None, f, 0, -1);
    assert events[0] == asplit;
    var r := cb(s, asplit);
    state, ret, flow := r.state, r.ret, r.flow;
    trace := past + [Delivered(asplit, ret, flow)];
    asplit := asplit.(endOfArg := 0);
    var iter := 1;
    while iter < |f| && ret == 0 && flow == KeepGoing
      invariant 1 <= iter <= |f| && asplit.endOfArg == 0
      invariant o == if Continues(ret, flow) then Deliver(cb, state, events[iter..], trace)
                     else Outcome(state, ret, flow, trace)
    {
      asplit := Event(arg, f[0], Some(f[iter]), f[iter..], iter, asplit.endOfArg);
      assert events[iter..][0] == asplit && events[iter..][1..] == events[iter + 1..];
      r := cb(state, asplit);
      state, ret, flow := r.state, r.ret, r.flow;
      trace := trace + [Delivered(asplit, ret, flow)];
      iter := iter + 1;
    }
    if ret == 0 && flow == KeepGoing {
      asplit := Event(arg, f[0], None, [], 0, 1);
      assert events[|f|..][0] == asplit && events[|f|..][1..] == [];
      r := cb(state, asplit);
      state, ret, flow := r.state, r.ret, r.flow;
      trace := trace + [Delivered(asplit, ret, flow)];
    }
    if flow == NextArg {
      flow := KeepGoing;
    }
  }

  method SplitArg(arg: string) returns (arr: seq<string>)
    ensures arr == FieldsOf(arg)
  {
    var nargs;
    arr, nargs := DoStrSplit(arg, Repeated(Some({'='}), {','}), []);
    assert [] + FieldsOf(arg) == arr;
  }

  /** argsplit_argv_do(). */
  method ArgvDo<S>(cb: Callback<S>, s: S, argv: seq<Option<string>>)
    returns (state: S, ret: int, trace: seq<Delivered>)
    ensures var o := ProcessArgs(cb, s, argv, []); state == o.state && ret == o.ret && trace == o.trace
  {
    var flow := KeepGoing;
    state, ret, trace := s, 0, [];
    ghost var o := ProcessArgs(cb, s, argv, []);
    var k := 0;
    while k < |argv| && flow == KeepGoing && ret == 0
      invariant 0 <= k <= |argv| && flow != NextArg
      invariant if Aborts(ret, flow) then o.state == state && o.ret == ret && o.trace == trace
                else o == ProcessArgs(cb, state, argv[k..], trace)
    {
      assert argv[k..][1..] == argv[k + 1..];
      if argv[k].Some? {
        var arr := SplitArg(argv[k].value);
        if |arr| > 0 {
          state, ret, flow, trace := ProcessArg(cb, state, argv[k].value, arr, trace);
        }
      }
      k := k + 1;
    }
  }

  // ---- the protocol the callback can rely on -------------------------------------------------------

  /**
  Accepts exactly the traces in which every argument contributes its events from the start one
  on, in order, without gaps, cut short only right after an answer that asked for it: an error
  or StopParse ends the trace, NextArg goes on with the next argument.
  */
  ghost predicate WellCut(trace: seq<Delivered>, events: seq<Event>, argv: seq<Option<string>>)
    decreases |argv|, |events|
  {
    if events == [] then
      if argv == [] then trace == [] else WellCut(trace, EventsOf(argv[0]), argv[1..])
    else
      && trace != [] && trace[0].event == events[0]
      && (if trace[0].ret == 0 && trace[0].flow == KeepGoing then WellCut(trace[1..], events[1..], argv)
          else if trace[0].ret != 0 || trace[0].flow == StopParse || argv == [] then |trace| == 1
          else WellCut(trace[1..], EventsOf(argv[0]), argv[1..]))
  }

  /** The rest of a run: the remaining events of one argument, then the remaining arguments. */
  function Remaining<S>(cb: Callback<S>, s: S, events: seq<Event>, argv: seq<Option<string>>, past: seq<Delivered>)
    : Outcome<S>
  {
    var o := Deliver(cb, s, events, past);
    if Aborts(o.ret, o.flow) then o else ProcessArgs(cb, o.state, argv, o.trace)
  }

  lemma RemainingStep<S>(cb: Callback<S>, s: S, events: seq<Event>, argv: seq<Option<string>>, past: seq<Delivered>)
    requires events != []
    ensures var r := cb(s, events[0]);
            var next := past + [Delivered(events[0], r.ret, r.flow)];
            Remaining(cb, s, events, argv, past) ==
              if Continues(r.ret, r.flow) then Remaining(cb, r.state, events[1..], argv, next)
              else if Aborts(r.ret, r.flow) then Outcome(r.state, r.ret, r.flow, next)
              else Remaining(cb, r.state, [], argv, next)
  {
  }

  lemma RemainingNextArg<S>(cb: Callback<S>, s: S, argv: seq<Option<string>>, past: seq<Delivered>)
    ensures Remaining(cb, s, [], argv, past) ==
              if argv == [] then Outcome(s, 0, KeepGoing, past)
              else Remaining(cb, s, EventsOf(argv[0]), argv[1..], past)
  {
  }

  /** Peeling the first entry off a trace. */
  lemma WellCutCons(t: seq<Delivered>, n: nat, events: seq<Event>, argv: seq<Option<string>>)
    requires n < |t| && events != [] && t[n].event == events[0]
    requires if Continues(t[n].ret, t[n].flow) then WellCut(t[n + 1..], events[1..], argv)
             else if Aborts(t[n].ret, t[n].flow) then |t| == n + 1
             else WellCut(t[n + 1..], [], argv)
    ensures WellCut(t[n..], events, argv)
  {
    assert t[n..][1..] == t[n + 1..];
  }

  lemma {:induction false} RemainingIsWellCut<S>(cb: Callback<S>, s: S, events: seq<Event>,
                                                argv: seq<Option<string>>, past: seq<Delivered>)
    ensures var t := Remaining(cb, s, events, argv, past).trace;
            past <= t && WellCut(t[|past|..], events, argv)
    decreases |argv|, |events|
  {
    if events == [] {
      RemainingNextArg(cb, s, argv, past);
      if argv != [] {
        RemainingIsWellCut(cb, s, EventsOf(argv[0]), argv[1..], past);
      }
    } else {
      RemainingStep(cb, s, events, argv, past);
      var r := cb(s, events[0]);
      var next := past + [Delivered(events[0], r.ret, r.flow)];
      if Continues(r.ret, r.flow) {
        RemainingIsWellCut(cb, r.state, events[1..], argv, next);
      } else if !Aborts(r.ret, r.flow) {
        RemainingIsWellCut(cb, r.state, [], argv, next);
      }
      WellCutCons(Remaining(cb, s, events, argv, past).trace, |past|, events, argv);
    }
  }

  /** Every run of the splitter, with any callback, follows the protocol. */
  lemma EveryTraceIsWellCut<S>(cb: Callback<S>, s: S, argv: seq<Option<string>>)
    ensures WellCut(ProcessArgs(cb, s, argv, []).trace, [], argv)
  {
    RemainingIsWellCut(cb, s, [], argv, []);
    var t := ProcessArgs(cb, s, argv, []).trace;
    assert t[0..] == t;
  }

  lemma {:induction false} ProcessAppend<S>(cb: Callback<S>, s: S, a: seq<Option<string>>, b: seq<Option<string>>,
                                           past: seq<Delivered>)
    ensures var o := ProcessArgs(cb, s, a, past);
            ProcessArgs(cb, s, a + b, past) ==
              if Aborts(o.ret, o.flow) then o else ProcessArgs(cb, o.state, b, o.trace)
    decreases a
  {
    if a == [] {
      assert a + b == b;
    } else {
      assert (a + b)[1..] == a[1..] + b;
      var o := Deliver(cb, s, EventsOf(a[0]), past);
      ProcessAppend(cb, o.state, a[1..], b, o.trace);
    }
  }

  // ---- reasoning about any callback ------------------------------------------------------------------

  /** What every answer to these events keeps, their delivery keeps. */
  lemma {:induction false} DeliverKeeps<S(!new)>(cb: Callback<S>, s: S, events: seq<Event>, past: seq<Delivered>,
                                                inv: S -> bool)
    requires inv(s)
    requires forall t, i :: 0 <= i < |events| && inv(t) ==> inv(cb(t, events[i]).state)
    ensures inv(Deliver(cb, s, events, past).state)
    decreases events
  {
    if events != [] {
      var r := cb(s, events[0]);
      forall t, i | 0 <= i < |events[1..]| && inv(t)
        ensures inv(cb(t, events[1..][i]).state)
      {
        assert events[1..][i] == events[i + 1];
      }
      DeliverKeeps(cb, r.state, events[1..], past + [Delivered(events[0], r.ret, r.flow)], inv);
    }
  }

  lemma {:induction false} DeliverNeverStops<S(!new)>(cb: Callback<S>, s: S, events: seq<Event>, past: seq<Delivered>)
    requires forall t, e :: cb(t, e).flow != StopParse
    ensures Deliver(cb, s, events, past).flow != StopParse
    decreases events
  {
    if events != [] {
      var r := cb(s, events[0]);
      DeliverNeverStops(cb, r.state, events[1..], past + [Delivered(events[0], r.ret, r.flow)]);
    }
  }

  /** A callback that never stops has every argument delivered, up to the first error. */
  lemma {:induction false} ProcessNeverStops<S(!new)>(cb: Callback<S>, s: S, argv: seq<Option<string>>,
                                                     past: seq<Delivered>)
    requires forall t, e :: cb(t, e).flow != StopParse
    ensures ProcessArgs(cb, s, argv, past).flow != StopParse
    decreases argv
  {
    if argv != [] {
      DeliverNeverStops(cb, s, EventsOf(argv[0]), past);
      var o := Deliver(cb, s, EventsOf(argv[0]), past);
      ProcessNeverStops(cb, o.state, argv[1..], o.trace);
    }
  }
}
