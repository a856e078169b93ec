/** The reader as it is written: if blocks are objects updated in place, on a list used as a stack. */
module MetashReader {
  import opened Wrappers
  import opened Metash

  class IfBlock {
    var isBlind: bool
    var isClosed: bool
    var wasMatched: bool
    const forcedBlind: bool
    var allowedOps: set<Op>

    function View(): Block
      reads this
    {
      Block(isBlind, wasMatched, forcedBlind, allowedOps)
    }

    constructor (forced: bool)
      ensures View() == NewBlock(forced) && !isClosed
    {
      isBlind, isClosed, wasMatched, forcedBlind, allowedOps := false, false, false, forced, {OpIf};
    }

    predicate Accepts(op: Op)
      reads this
    {
      op in allowedOps
    }

    method Update(env: Env, op: Op, args: seq<string>) returns (err: Option<Error>)
      modifies this
      ensures match Metash.Update(old(View()), op, args, env)
              case Refused(e) => err == Some(e)
              case Changed(b) => err == None && View() == b && isClosed == (old(isClosed) || op == OpEndif)
    {
      if op !in allowedOps {
        return Some(BadInstruction);
      }
      match op {
        case OpEndif =>
          if args != [] {
            return Some(BadInstruction);
          }
          isBlind, isClosed := false, true;
        case OpElse =>
          if args != [] {
            return Some(BadInstruction);
          }
          isBlind := wasMatched;
        case OpIf =>
          match IfCondition(args, env) {
            case Rejected(e) => return Some(e);
            case Holds(c) => isBlind, wasMatched := !c, c;
          }
        case OpElseIf =>
          match IfCondition(args, env) {
            case Rejected(e) => return Some(e);
            case Holds(c) =>
              if wasMatched {
                isBlind := true;
              } else {
                isBlind, wasMatched := !c, c;
              }
          }
        case _ => return Some(NotImplemented);
      }
      if forcedBlind {
        isBlind := true;
      }
      allowedOps := Followers(op);
      return None;
    }
  }

  /** The objects on the list stand for the blocks of a stack of the machine. */
  ghost predicate Mirrors(blocks: seq<IfBlock>, stack: seq<Block>)
    reads blocks
  {
    && |blocks| == |stack|
    && (forall i :: 0 <= i < |blocks| ==> blocks[i].View() == stack[i] && !blocks[i].isClosed)
    && (forall i, j :: 0 <= i < j < |blocks| ==> blocks[i] != blocks[j])
  }

  class Reader {
    var metavars: Env
    var emitted: seq<Emitted>

    method Undefine(args: seq<string>) returns (err: Option<Error>)
      modifies this`metavars
      ensures Defs(metavars, err) == Assign(OpUndef, args, old(metavars))
    {
      if args == [] {
        return Some(BadInstruction);
      }
      for k := 0 to |args|
        invariant Undef(args, old(metavars)) == Undef(args[k..], metavars)
      {
        if args[k] !in metavars {
          return Some(NotDefined(args[k]));
        }
        metavars := metavars - {args[k]};
        assert args[k..][1..] == args[k + 1..];
      }
      return None;
    }

    /** One instruction other than a builtin. */
    method Instruction(blocks: seq<IfBlock>, op: Op, args: seq<string>, ghost st: State)
      returns (after: seq<IfBlock>, err: Option<Error>)
      requires st.err.None? && st.env == metavars && Mirrors(blocks, st.stack)
      modifies this`metavars, blocks
      ensures var r := Step(Instr(op, args), st);
              metavars == r.env && err == r.err && (err.None? ==> r.out == st.out && Mirrors(after, r.stack))
      ensures fresh((set b | b in after) - set b | b in blocks)
    {
      after := blocks;
      var blind := blocks != [] && blocks[|blocks| - 1].isBlind;
      if op == OpIf {
        var b := new IfBlock(blind);
        err := b.Update(metavars, op, args);
        after := blocks + [b];
      } else if blocks != [] && blocks[|blocks| - 1].Accepts(op) {
        var top := blocks[|blocks| - 1];
        err := top.Update(metavars, op, args);
        if err.None? && top.isClosed {
          after := blocks[..|blocks| - 1];
        }
      } else if blind {
        err := None;
      } else if op == OpDefine || op == OpWeakdef {
        var d := Define(op, args, metavars);
        metavars, err := d.env, d.err;
      } else if op == OpUndef {
        err := Undefine(args);
      } else {
        err := Some(NotImplemented);
      }
    }

    /** The loop over the lines of a file; a builtin re-enters it with the lines it expands to. */
    method PreprocessAndExpand(lines: seq<Line>) returns (err: Option<Error>)
      modifies this
      ensures var r := Process(lines, old(metavars), old(emitted));
              metavars == r.env && emitted == r.out && err == r.err
      decreases lines
    {
      var blocks: seq<IfBlock> := [];
      ghost var start := State([], metavars, emitted, None);
      ghost var st := start;
      for k := 0 to |lines|
        invariant Run(lines, start) == Run(lines[k..], st)
        invariant st.err.None? && st.env == metavars && st.out == emitted
        invariant Mirrors(blocks, st.stack)
        invariant fresh(set b | b in blocks)
      {
        assert lines[k..][0] == lines[k] && lines[k..][1..] == lines[k + 1..];
        ghost var next := Step(lines[k], st);
        var blind := blocks != [] && blocks[|blocks| - 1].isBlind;
        match lines[k] {
          case Instr(op, args) =>
            blocks, err := Instruction(blocks, op, args, st);
            if err.Some? {
              return;
            }
          case Builtin(args, expansion) =>
            if !blind {
              if args == [] {
                return Some(BadInstruction);
              }
              err := PreprocessAndExpand(expansion);
              if err.Some? {
                return;
              }
            }
          case Text(text) =>
            if !blind {
              emitted := emitted + [Emitted(metavars, text)];
            }
        }
        st := next;
      }
      assert lines[|lines|..] == [];
      return if blocks != [] then Some(MissingEndif) else None;
    }
  }
}
