/** What every reachable stack of if blocks satisfies, and what one block shows over its life. */
module MetashStack {
  import opened Wrappers
  import opened Metash

  /** A block is forced blind exactly if its parent was blind, and then it is blind. */
  ghost predicate GoodBlock(stack: seq<Block>, i: nat)
    requires i < |stack|
  {
    var b := stack[i];
    && b.forced == (i > 0 && stack[i - 1].blind)
    && (b.forced ==> b.blind)
    && b.allowed in {Followers(OpIf), Followers(OpElseIf), Followers(OpElse)}
  }

  ghost predicate GoodStack(stack: seq<Block>) {
    forall i: nat :: i < |stack| ==> GoodBlock(stack, i)
  }

  lemma StepKeepsGoodStack(line: Line, st: State)
    requires st.err.None? && GoodStack(st.stack)
    ensures GoodStack(Step(line, st).stack)
  {
    var r := Step(line, st).stack;
    forall i: nat | i < |r|
      ensures GoodBlock(r, i)
    {
      if i < |st.stack| {
        assert GoodBlock(st.stack, i);
      }
    }
  }

  lemma {:induction false} RunKeepsGoodStack(lines: seq<Line>, st: State)
    requires GoodStack(st.stack)
    ensures GoodStack(Run(lines, st).stack)
  {
    if lines != [] && st.err.None? {
      StepKeepsGoodStack(lines[0], st);
      RunKeepsGoodStack(lines[1..], Step(lines[0], st));
    }
  }

  lemma {:induction false} BlindGoesUp(stack: seq<Block>, i: nat, j: nat)
    requires GoodStack(stack) && i <= j < |stack| && stack[i].blind
    ensures stack[j].blind
    decreases j
  {
    if i < j {
      BlindGoesUp(stack, i, j - 1);
      assert GoodBlock(stack, j);
    }
  }

  /**
  Whatever lines were read, looking at the top block decides visibility as well as looking at
  the whole stack would.
  */
  lemma TopDecides(lines: seq<Line>, env: Env, out: seq<Emitted>)
    ensures var stack := Run(lines, State([], env, out, None)).stack;
            TopBlind(stack) <==> exists i: nat :: i < |stack| && stack[i].blind
  {
    RunKeepsGoodStack(lines, State([], env, out, None));
    var stack := Run(lines, State([], env, out, None)).stack;
    if i: nat :| i < |stack| && stack[i].blind {
      BlindGoesUp(stack, i, |stack| - 1);
    }
  }

  // ---- the life of one block --------------------------------------------------------------

  datatype Event = Event(op: Op, args: seq<string>, env: Env)

  datatype Life = Life(block: Block, shown: nat, elseSeen: bool)

  /** Feeds a block the instructions it accepts, counting the branches it makes visible. */
  function Live(events: seq<Event>, forced: bool): (r: Option<Life>)
  {
    if events == [] then Some(Life(NewBlock(forced), 0, false)) else
    var last := events[|events| - 1];
    match Live(events[..|events| - 1], forced)
    case None => None
    case Some(l) =>
      match Update(l.block, last.op, last.args, last.env)
      case Refused(_) => None
      case Changed(b) =>
        Some(Life(b, l.shown + if last.op != OpEndif && !b.blind then 1 else 0, l.elseSeen || last.op == OpElse))
  }

  /**
  At most one branch of a block is ever visible; none if the parent is blind; and exactly one
  once an else was reached under a visible parent.
  */
  lemma {:induction false} OneBranchShown(events: seq<Event>, forced: bool)
    ensures var r := Live(events, forced);
            r.Some? ==>
              && r.value.shown <= 1
              && (forced ==> r.value.shown == 0)
              && (r.value.elseSeen && !forced ==> r.value.shown == 1)
              && r.value.block.forced == forced
              && (!forced && !r.value.elseSeen ==> (r.value.shown == 1 <==> r.value.block.matched))
              && (r.value.elseSeen ==> r.value.block.allowed <= {OpEndif})
              && (events != [] ==> OpIf !in r.value.block.allowed)
              && (events == [] ==> !r.value.block.matched)
  {
    if events != [] {
      OneBranchShown(events[..|events| - 1], forced);
    }
  }
}
