/**
The conditional preprocessor of scripts/metash: a streaming machine that keeps a stack of
"if blocks" and decides, by looking at the top block only, whether a line is visible.

Instructions arrive already split into an opcode and its words; `Builtin` carries the lines
its macro expands to, since the generators of those lines are not modelled.
*/
module Metash {
  import opened Wrappers

  type Env = map<string, string>

  datatype Error =
    | BadInstruction
    | NotDefined(name: string)
    | AlreadyDefined(name: string)
    | EmptyValue
    | NotImplemented
    | MissingEndif

  datatype Op = OpIf | OpElseIf | OpElse | OpEndif | OpDefine | OpWeakdef | OpUndef | OpUnsupported

  datatype Line =
    | Text(text: string)
    | Instr(op: Op, args: seq<string>)
    | Builtin(args: seq<string>, expansion: seq<Line>)

  // ---- conditions -------------------------------------------------------------------------

  function LeadingBangs(s: string): (n: nat)
    ensures n <= |s|
    ensures forall i :: 0 <= i < n ==> s[i] == '!'
    ensures n < |s| ==> s[n] != '!'
  {
    if |s| > 0 && s[0] == '!' then 1 + LeadingBangs(s[1..]) else 0
  }

  /** Index of the first occurrence of `c`, or the length of `s`. */
  function IndexOf(s: string, c: char): (n: nat)
    ensures n <= |s|
    ensures forall i :: 0 <= i < n ==> s[i] != c
    ensures n < |s| ==> s[n] == c
  {
    if |s| == 0 || s[0] == c then 0 else 1 + IndexOf(s[1..], c)
  }

  function Lower(s: string): (r: string)
    ensures |r| == |s|
  {
    if s == "" then "" else
      [if 'A' <= s[0] <= 'Z' then ((s[0] as int) + 32) as char else s[0]] + Lower(s[1..])
  }

  predicate Falsy(value: string) {
    Lower(value) in {"", "n", "0", "no", "false", "disabled"}
  }

  datatype Verdict = Holds(value: bool) | Rejected(error: Error)

  /** The condition of an if/elseif: `!...!NAME`, optionally `NAME=default` or `NAME:=default`. */
  function Condition(arg: string, env: Env): (v: Verdict) {
    var bangs := LeadingBangs(arg);
    Judge(arg[bangs..], bangs % 2 == 1, env)
  }

  function Judge(body: string, negate: bool, env: Env): Verdict {
    var eq := IndexOf(body, '=');
    var rawName := body[..eq];
    var name := if rawName != "" && rawName[|rawName| - 1] == ':' then rawName[..|rawName| - 1] else rawName;
    if name == "" then Rejected(BadInstruction)
    else if name in env then Holds(Falsy(env[name]) == negate)
    else if eq < |body| then Holds(Falsy(body[eq + 1..]) == negate)
    else Rejected(NotDefined(name))
  }

  /** Exactly one word is accepted after if/elseif. */
  function IfCondition(args: seq<string>, env: Env): (v: Verdict) {
    if |args| != 1 || args[0] == "" then Rejected(BadInstruction) else Condition(args[0], env)
  }

  // ---- one block --------------------------------------------------------------------------

  datatype Block = Block(blind: bool, matched: bool, forced: bool, allowed: set<Op>)

  /** Which instructions may follow `op` in the same block. */
  function Followers(op: Op): (ops: set<Op>)
    ensures OpIf !in ops
  {
    match op
    case OpIf => {OpElse, OpElseIf, OpEndif}
    case OpElseIf => {OpElse, OpEndif}
    case OpElse => {OpEndif}
    case _ => {}
  }

  function NewBlock(forced: bool): Block {
    Block(false, false, forced, {OpIf})
  }

  datatype Updated = Changed(block: Block) | Refused(error: Error)

  function Update(b: Block, op: Op, args: seq<string>, env: Env): (r: Updated) {
    if op !in b.allowed then Refused(BadInstruction)
    else if op == OpEndif then
      if args != [] then Refused(BadInstruction)
      else Changed(b.(blind := b.forced, allowed := {}))
    else if op == OpElse then
      if args != [] then Refused(BadInstruction)
      else Changed(b.(blind := b.matched || b.forced, allowed := Followers(OpElse)))
    else if op == OpIf then
      match IfCondition(args, env) {
        case Rejected(e) => Refused(e)
        case Holds(c) => Changed(b.(blind := !c || b.forced, matched := c, allowed := Followers(OpIf)))
      }
    else if op == OpElseIf then
      match IfCondition(args, env) {
        case Rejected(e) => Refused(e)
        case Holds(c) =>
          if b.matched then Changed(b.(blind := true, allowed := Followers(OpElseIf)))
          else Changed(b.(blind := !c || b.forced, matched := c, allowed := Followers(OpElseIf)))
      }
    else Refused(NotImplemented)
  }

  // ---- the machine ------------------------------------------------------------------------

  /** A line handed to the consumer together with the variables it will be expanded with. */
  datatype Emitted = Emitted(env: Env, text: string)

  datatype State = State(stack: seq<Block>, env: Env, out: seq<Emitted>, err: Option<Error>)

  predicate TopBlind(stack: seq<Block>) {
    stack != [] && stack[|stack| - 1].blind
  }

  /** The name pattern of the shell reader: "$", or capitals, digits and underscores. */
  predicate ValidName(s: string) {
    s == "$" ||
    (s != "" && ('A' <= s[0] <= 'Z' || s[0] == '_') &&
     forall i :: 0 <= i < |s| ==> 'A' <= s[i] <= 'Z' || '0' <= s[i] <= '9' || s[i] == '_')
  }

  function Unquote(value: string): string {
    if |value| > 1 && value[0] == '"' && value[|value| - 1] == '"' then value[1..|value| - 1] else value
  }

  /** The variables after define/weakdef/undef, with the error that stops the run, if any. */
  datatype Defs = Defs(env: Env, err: Option<Error>)

  function Define(op: Op, args: seq<string>, env: Env): Defs {
    if args == [] || args[0] == "" || !ValidName(args[0]) then Defs(env, Some(BadInstruction))
    else if |args| == 1 || args[1] == "" then Defs(env, Some(EmptyValue))
    else if args[0] !in env then Defs(env[args[0] := Unquote(args[1])], None)
    else if op == OpDefine then Defs(env, Some(AlreadyDefined(args[0])))
    else Defs(env, None)
  }

  function Undef(args: seq<string>, env: Env): Defs {
    if args == [] then Defs(env, None)
    else if args[0] in env then Undef(args[1..], env - {args[0]})
    else Defs(env, Some(NotDefined(args[0])))
  }

  function Assign(op: Op, args: seq<string>, env: Env): Defs {
    if op == OpUndef then
      if args == [] then Defs(env, Some(BadInstruction)) else Undef(args, env)
    else Define(op, args, env)
  }

  function Step(line: Line, st: State): State
    requires st.err.None?
    decreases line, 0
  {
    match line
    case Text(text) =>
      if TopBlind(st.stack) then st else st.(out := st.out + [Emitted(st.env, text)])
    case Builtin(args, expansion) =>
      if TopBlind(st.stack) then st
      else if args == [] then st.(err := Some(BadInstruction))
      else Process(expansion, st.env, st.out).(stack := st.stack)
    case Instr(op, args) =>
      var top := |st.stack| - 1;
      if op == OpIf then
        match Update(NewBlock(TopBlind(st.stack)), op, args, st.env) {
          case Refused(e) => st.(err := Some(e))
          case Changed(b) => st.(stack := st.stack + [b])
        }
      else if st.stack != [] && op in st.stack[top].allowed then
        match Update(st.stack[top], op, args, st.env) {
          case Refused(e) => st.(err := Some(e))
          case Changed(b) => st.(stack := if op == OpEndif then st.stack[..top] else st.stack[top := b])
        }
      else if TopBlind(st.stack) then st
      else if op in {OpDefine, OpWeakdef, OpUndef} then
        var d := Assign(op, args, st.env);
        st.(env := d.env, err := d.err)
      else st.(err := Some(NotImplemented))
  }

  function Run(lines: seq<Line>, st: State): State
    decreases lines, 1
  {
    if lines == [] || st.err.Some? then st else Run(lines[1..], Step(lines[0], st))
  }

  /** A whole file, or the expansion of one builtin: it must close every block it opens. */
  function Process(lines: seq<Line>, env: Env, out: seq<Emitted>): State
    decreases lines, 2
  {
    var st := Run(lines, State([], env, out, None));
    if st.err.None? && st.stack != [] then st.(err := Some(MissingEndif)) else st
  }
}
