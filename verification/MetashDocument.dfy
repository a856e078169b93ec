/**
Nested documents, their recursive meaning, and the proof that streaming the flattened lines
through the block-stack machine computes it.
*/
module MetashDocument {
  import opened Wrappers
  import opened Metash
  import opened MetashStack

  datatype Doc = Nil | Cons(item: Item, rest: Doc)

  datatype Item =
    | Plain(text: string)
    | Def(weak: bool, args: seq<string>)
    | Undefine(args: seq<string>)
    | Macro(args: seq<string>, body: Doc)
    | If(args: seq<string>, body: Doc, alt: Alt)

  /** What follows the body of an if or elseif. */
  datatype Alt =
    | End
    | Else(body: Doc)
    | ElseIf(args: seq<string>, body: Doc, alt: Alt)

  // ---- the lines of a document ------------------------------------------------------------

  function FlattenDoc(d: Doc): seq<Line> {
    match d
    case Nil => []
    case Cons(item, rest) => FlattenItem(item) + FlattenDoc(rest)
  }

  function FlattenItem(i: Item): seq<Line> {
    match i
    case Plain(text) => [Text(text)]
    case Def(weak, args) => [Instr(if weak then OpWeakdef else OpDefine, args)]
    case Undefine(args) => [Instr(OpUndef, args)]
    case Macro(args, body) => [Builtin(args, FlattenDoc(body))]
    case If(args, body, alt) => [Instr(OpIf, args)] + FlattenDoc(body) + FlattenAlt(alt)
  }

  function FlattenAlt(a: Alt): seq<Line> {
    match a
    case End => [Instr(OpEndif, [])]
    case Else(body) => [Instr(OpElse, [])] + FlattenDoc(body) + [Instr(OpEndif, [])]
    case ElseIf(args, body, alt) => [Instr(OpElseIf, args)] + FlattenDoc(body) + FlattenAlt(alt)
  }

  // ---- the meaning: only the branch taken is looked at ------------------------------------

  datatype Sem = Sem(env: Env, out: seq<Emitted>, err: Option<Error>)

  function MeaningDoc(d: Doc, s: Sem): Sem {
    if s.err.Some? then s else
    match d
    case Nil => s
    case Cons(item, rest) => MeaningDoc(rest, MeaningItem(item, s))
  }

  function MeaningItem(i: Item, s: Sem): Sem {
    match i
    case Plain(text) => s.(out := s.out + [Emitted(s.env, text)])
    case Def(weak, args) =>
      var d := Assign(if weak then OpWeakdef else OpDefine, args, s.env);
      s.(env := d.env, err := d.err)
    case Undefine(args) =>
      var d := Assign(OpUndef, args, s.env);
      s.(env := d.env, err := d.err)
    case Macro(args, body) =>
      if args == [] then s.(err := Some(BadInstruction)) else MeaningDoc(body, s)
    case If(args, body, alt) =>
      match IfCondition(args, s.env)
      case Rejected(e) => s.(err := Some(e))
      case Holds(c) => if c then MeaningDoc(body, s) else MeaningAlt(alt, s)
  }

  function MeaningAlt(a: Alt, s: Sem): Sem {
    match a
    case End => s
    case Else(body) => MeaningDoc(body, s)
    case ElseIf(args, body, alt) =>
      match IfCondition(args, s.env)
      case Rejected(e) => s.(err := Some(e))
      case Holds(c) => if c then MeaningDoc(body, s) else MeaningAlt(alt, s)
  }

  // ---- what the reader does on the tree: it also judges conditions it skips ----------------

  /** How far an if block has got: still at its first branch, or past an elseif. */
  datatype Progress = First | Past(shown: bool)

  function EagerDoc(d: Doc, visible: bool, s: Sem): Sem
    decreases d
  {
    if s.err.Some? then s else
    match d
    case Nil => s
    case Cons(item, rest) => EagerDoc(rest, visible, EagerItem(item, visible, s))
  }

  function EagerItem(i: Item, visible: bool, s: Sem): Sem
    decreases i
  {
    match i
    case If(args, body, alt) =>
      (match IfCondition(args, s.env)
       case Rejected(e) => s.(err := Some(e))
       case Holds(c) => EagerAlt(alt, visible, c, First, EagerDoc(body, visible && c, s)))
    case Macro(args, body) =>
      if !visible then s
      else if args == [] then s.(err := Some(BadInstruction)) else EagerDoc(body, true, s)
    case _ => if visible then MeaningItem(i, s) else s
  }

  /** A second elseif is no longer accepted: it is dropped when hidden and refused when visible. */
  function EagerAlt(a: Alt, visible: bool, matched: bool, progress: Progress, s: Sem): Sem
    decreases a
  {
    if s.err.Some? then s else
    match a
    case End => s
    case Else(body) => EagerDoc(body, visible && !matched, s)
    case ElseIf(args, body, alt) =>
      if progress.Past? then
        if progress.shown then s.(err := Some(NotImplemented))
        else EagerAlt(alt, visible, matched, progress, EagerDoc(body, false, s))
      else
        match IfCondition(args, s.env)
        case Rejected(e) => s.(err := Some(e))
        case Holds(c) =>
          var shown := visible && c && !matched;
          EagerAlt(alt, visible, matched || c, Past(shown), EagerDoc(body, shown, s))
  }

  // ---- streaming equals the eager tree walk, for every document ---------------------------

  lemma {:induction false} RunAppend(a: seq<Line>, b: seq<Line>, st: State)
    ensures Run(a + b, st) == Run(b, Run(a, st))
  {
    if a == [] {
      assert a + b == b;
    } else if st.err.None? {
      assert (a + b)[1..] == a[1..] + b;
      RunAppend(a[1..], b, Step(a[0], st));
    }
  }

  lemma RunOne(line: Line, st: State)
    requires st.err.None?
    ensures Run([line], st) == Step(line, st)
  {
    assert [line][1..] == [];
    assert Run([line][1..], Step(line, st)) == Step(line, st);
  }

  /** The machine went from a state with stack `base` to `st` exactly as the tree walk says. */
  ghost predicate Agrees(st: State, base: seq<Block>, s: Sem) {
    st.env == s.env && st.out == s.out && st.err == s.err && (s.err.None? ==> st.stack == base)
  }

  function SemOf(st: State): Sem {
    Sem(st.env, st.out, st.err)
  }

  lemma {:induction false} StreamDoc(d: Doc, st: State)
    requires st.err.None? && GoodStack(st.stack)
    ensures Agrees(Run(FlattenDoc(d), st), st.stack, EagerDoc(d, !TopBlind(st.stack), SemOf(st)))
    decreases d, 0
  {
    match d
    case Nil =>
    case Cons(item, rest) =>
      RunAppend(FlattenItem(item), FlattenDoc(rest), st);
      StreamItem(item, st);
      var mid := Run(FlattenItem(item), st);
      if mid.err.None? {
        StreamDoc(rest, mid);
      }
  }

  lemma AssignmentsAreNotFollowers(st: State)
    requires GoodStack(st.stack) && st.stack != []
    ensures st.stack[|st.stack| - 1].allowed !! {OpDefine, OpWeakdef, OpUndef}
  {
    assert GoodBlock(st.stack, |st.stack| - 1);
  }

  lemma {:induction false} StreamItem(i: Item, st: State)
    requires st.err.None? && GoodStack(st.stack)
    ensures Agrees(Run(FlattenItem(i), st), st.stack, EagerItem(i, !TopBlind(st.stack), SemOf(st)))
    decreases i, 1
  {
    if st.stack != [] {
      AssignmentsAreNotFollowers(st);
    }
    match i
    case Plain(text) => RunOne(Text(text), st);
    case Def(weak, args) => RunOne(Instr(if weak then OpWeakdef else OpDefine, args), st);
    case Undefine(args) => RunOne(Instr(OpUndef, args), st);
    case Macro(args, body) =>
      RunOne(Builtin(args, FlattenDoc(body)), st);
      StreamDoc(body, State([], st.env, st.out, None));
    case If(_, _, _) => StreamIf(i, st);
  }

  lemma {:induction false} StreamIf(i: Item, st: State)
    requires i.If? && st.err.None? && GoodStack(st.stack)
    ensures Agrees(Run(FlattenItem(i), st), st.stack, EagerItem(i, !TopBlind(st.stack), SemOf(st)))
    decreases i, 0
  {
    var If(args, body, alt) := i;
    var first := Instr(OpIf, args);
    RunAppend([first] + FlattenDoc(body), FlattenAlt(alt), st);
    StreamBranch(first, body, st);
    var entered := Step(first, st);
    var closed := Run([first] + FlattenDoc(body), st);
    if closed.err.None? {
      assert closed.stack == entered.stack && closed.stack[..|st.stack|] == st.stack;
      StreamAlt(alt, closed, st.stack);
    }
  }

  /** Where the open block on top of the stack stands. */
  function ProgressOf(b: Block): Progress {
    if OpElseIf in b.allowed then First else Past(!b.blind)
  }

  ghost predicate OpenOn(st: State, base: seq<Block>) {
    && st.err.None? && GoodStack(st.stack)
    && |st.stack| == |base| + 1 && st.stack[..|base|] == base
    && st.stack[|base|].forced == TopBlind(base)
  }

  lemma {:induction false} StreamAlt(a: Alt, st: State, base: seq<Block>)
    requires OpenOn(st, base) && OpElse in st.stack[|base|].allowed
    ensures var top := st.stack[|base|];
            Agrees(Run(FlattenAlt(a), st), base,
                   EagerAlt(a, !TopBlind(base), top.matched, ProgressOf(top), SemOf(st)))
    decreases a
  {
    match a
    case End => RunOne(Instr(OpEndif, []), st); assert GoodBlock(st.stack, |base|);
    case Else(body) => StreamElse(body, st, base);
    case ElseIf(args, body, alt) =>
      var line := Instr(OpElseIf, args);
      RunAppend([line] + FlattenDoc(body), FlattenAlt(alt), st);
      StreamBranch(line, body, st);
      StepElseIf(args, st, base);
      var entered := Step(line, st);
      var closed := Run([line] + FlattenDoc(body), st);
      if closed.err.None? {
        assert closed.stack == entered.stack;
        StreamAlt(alt, closed, base);
      }
  }

  lemma StepElseIf(args: seq<string>, st: State, base: seq<Block>)
    requires OpenOn(st, base) && OpElse in st.stack[|base|].allowed
    ensures var top := st.stack[|base|];
            var r := Step(Instr(OpElseIf, args), st);
            match ProgressOf(top) {
              case First =>
                (match IfCondition(args, st.env)
                 case Rejected(e) => r == st.(err := Some(e))
                 case Holds(c) =>
                   && r == st.(stack := r.stack) && OpenOn(r, base)
                   && r.stack[|base|].matched == (top.matched || c)
                   && r.stack[|base|].allowed == Followers(OpElseIf)
                   && r.stack[|base|].blind == !(!TopBlind(base) && c && !top.matched))
              case Past(shown) => r == if shown then st.(err := Some(NotImplemented)) else st
            }
  {
    assert GoodBlock(st.stack, |base|);
    StepKeepsGoodStack(Instr(OpElseIf, args), st);
  }

  lemma {:induction false} StreamElse(body: Doc, st: State, base: seq<Block>)
    requires OpenOn(st, base) && OpElse in st.stack[|base|].allowed
    ensures Agrees(Run(FlattenAlt(Else(body)), st), base,
                   EagerDoc(body, !TopBlind(base) && !st.stack[|base|].matched, SemOf(st)))
    decreases body, 2
  {
    var line := Instr(OpElse, []);
    RunAppend([line] + FlattenDoc(body), [Instr(OpEndif, [])], st);
    StreamBranch(line, body, st);
    var entered := Step(line, st);
    assert entered.stack[..|base|] == base && OpEndif in entered.stack[|base|].allowed;
    var closed := Run([line] + FlattenDoc(body), st);
    if closed.err.None? {
      RunOne(Instr(OpEndif, []), closed);
    }
  }

  /** One else/elseif line followed by its body. */
  lemma {:induction false} StreamBranch(line: Line, body: Doc, st: State)
    requires st.err.None? && GoodStack(st.stack) && line.Instr?
    ensures var entered := Step(line, st);
            var r := Run([line] + FlattenDoc(body), st);
            if entered.err.Some? then r == entered
            else GoodStack(entered.stack)
                 && Agrees(r, entered.stack, EagerDoc(body, !TopBlind(entered.stack), SemOf(entered)))
    decreases body, 1
  {
    RunAppend([line], FlattenDoc(body), st);
    RunOne(line, st);
    StepKeepsGoodStack(line, st);
    if Step(line, st).err.None? {
      StreamDoc(body, Step(line, st));
    }
  }

  /** Streaming a document's lines does what the eager walk of its tree does, errors included. */
  lemma StreamingIsEager(d: Doc, env: Env, out: seq<Emitted>)
    ensures Agrees(Process(FlattenDoc(d), env, out), [], EagerDoc(d, true, Sem(env, out, None)))
  {
    StreamDoc(d, State([], env, out, None));
  }
}
