/** What the lines of a metash file do to its variables, and what conditions make of them. */
module MetashVariables {
  import opened Wrappers
  import opened Metash
  import opened MetashStack
  import opened MetashDocument

  /** Lines read in this state are looked at. */
  ghost predicate Visible(st: State) {
    st.err.None? && GoodStack(st.stack) && !TopBlind(st.stack)
  }

  lemma AssignmentLine(op: Op, args: seq<string>, st: State)
    requires Visible(st) && op in {OpDefine, OpWeakdef, OpUndef}
    ensures var d := Assign(op, args, st.env); Step(Instr(op, args), st) == st.(env := d.env, err := d.err)
  {
    if st.stack != [] {
      AssignmentsAreNotFollowers(st);
    }
  }

  // ---- define and weakdef -----------------------------------------------------------------------------

  predicate NameChar(c: char) {
    'A' <= c <= 'Z' || '0' <= c <= '9' || c == '_'
  }

  predicate IsName(s: string) {
    s == "$" || (s != "" && !('0' <= s[0] <= '9') && forall i :: 0 <= i < |s| ==> NameChar(s[i]))
  }

  predicate IsQuoted(s: string) {
    |s| > 1 && s[0] == '"' && s[|s| - 1] == '"'
  }

  /** `value` as it is written for the content `v`: in double quotes, or bare if it has none around it. */
  predicate Writes(value: string, v: string) {
    if IsQuoted(value) then value == "\"" + v + "\"" else value == v
  }

  lemma UnquoteWrites(value: string)
    ensures Writes(value, Unquote(value))
  {
    if IsQuoted(value) {
      assert value == [value[0]] + value[1..|value| - 1] + [value[|value| - 1]];
    }
  }

  lemma NamesAreValid(s: string)
    ensures IsName(s) <==> ValidName(s)
  {
    if s != "" {
      assert NameChar(s[0]) <==> 'A' <= s[0] <= 'Z' || '0' <= s[0] <= '9' || s[0] == '_';
    }
  }

  /** A visible define or weakdef of a name that is defined already: weakdef does nothing, define refuses. */
  lemma DefinedAlready(name: string, value: string, rest: seq<string>, st: State)
    requires Visible(st) && IsName(name) && value != "" && name in st.env
    ensures Step(Instr(OpWeakdef, [name, value] + rest), st) == st
    ensures Step(Instr(OpDefine, [name, value] + rest), st) == st.(err := Some(AlreadyDefined(name)))
  {
    NamesAreValid(name);
    AssignmentLine(OpWeakdef, [name, value] + rest, st);
    AssignmentLine(OpDefine, [name, value] + rest, st);
  }

  /** A visible define or weakdef of a new name binds exactly that name, to the value without its quotes. */
  lemma DefinedNow(weak: bool, name: string, value: string, rest: seq<string>, st: State)
    requires Visible(st) && IsName(name) && value != "" && name !in st.env
    ensures var r := Step(Instr(if weak then OpWeakdef else OpDefine, [name, value] + rest), st);
            name in r.env && r == st.(env := st.env[name := r.env[name]]) && Writes(value, r.env[name])
  {
    NamesAreValid(name);
    UnquoteWrites(value);
    AssignmentLine(if weak then OpWeakdef else OpDefine, [name, value] + rest, st);
  }

  /** A define or weakdef without a proper name or without a value is refused, and changes nothing. */
  lemma DefinedBadly(weak: bool, args: seq<string>, st: State)
    requires Visible(st)
    ensures var r := Step(Instr(if weak then OpWeakdef else OpDefine, args), st);
            && (args == [] || !IsName(args[0]) ==> r == st.(err := Some(BadInstruction)))
            && (args != [] && IsName(args[0]) && (|args| == 1 || args[1] == "") ==> r == st.(err := Some(EmptyValue)))
  {
    if args != [] {
      NamesAreValid(args[0]);
    }
    AssignmentLine(if weak then OpWeakdef else OpDefine, args, st);
  }

  // ---- undef ------------------------------------------------------------------------------------------

  function Names(args: seq<string>): set<string> {
    set a | a in args
  }

  /** `k` is the first argument that is not defined, or no longer; or there is none. */
  ghost predicate FirstUnknown(args: seq<string>, env: Env, k: nat) {
    && k <= |args|
    && (forall j :: 0 <= j < k ==> args[j] in env && args[j] !in args[..j])
    && (k < |args| ==> args[k] !in env || args[k] in args[..k])
  }

  lemma {:induction false} UndefRemoves(args: seq<string>, env: Env, k: nat)
    requires FirstUnknown(args, env, k)
    ensures Undef(args, env) == Defs(env - Names(args[..k]), if k < |args| then Some(NotDefined(args[k])) else None)
    decreases |args|
  {
    if k == 0 {
      assert args[..0] == [] && env - Names([]) == env;
    } else {
      var rest, env' := args[1..], env - {args[0]};
      forall j | 0 <= j < k - 1
        ensures rest[j] in env' && rest[j] !in rest[..j]
      {
        assert rest[j] == args[j + 1] && rest[..j] == args[1..j + 1];
        assert args[0] in args[..j + 1];
      }
      if k < |args| {
        assert rest[k - 1] == args[k] && rest[..k - 1] == args[1..k];
        assert args[..k] == [args[0]] + args[1..k];
      }
      UndefRemoves(rest, env', k - 1);
      assert args[..k] == [args[0]] + rest[..k - 1];
      assert Names(args[..k]) == {args[0]} + Names(rest[..k - 1]);
      assert env - {args[0]} - Names(rest[..k - 1]) == env - Names(args[..k]);
    }
  }

  /** A visible undef removes exactly its names, up to the first that is not defined, which it reports. */
  lemma UndefLine(args: seq<string>, st: State, k: nat)
    requires Visible(st) && args != [] && FirstUnknown(args, st.env, k)
    ensures Step(Instr(OpUndef, args), st) ==
            st.(env := st.env - Names(args[..k]), err := if k < |args| then Some(NotDefined(args[k])) else None)
    ensures Step(Instr(OpUndef, []), st) == st.(err := Some(BadInstruction))
  {
    AssignmentLine(OpUndef, args, st);
    AssignmentLine(OpUndef, [], st);
    UndefRemoves(args, st.env, k);
  }

  // ---- the first value stays --------------------------------------------------------------------------

  predicate MayUndef(lines: seq<Line>, name: string) {
    exists i :: 0 <= i < |lines| && LineMayUndef(lines[i], name)
  }

  predicate LineMayUndef(line: Line, name: string) {
    match line
    case Text(_) => false
    case Instr(op, args) => op == OpUndef && name in args
    case Builtin(_, expansion) => exists i :: 0 <= i < |expansion| && LineMayUndef(expansion[i], name)
  }

  ghost predicate Keeps(env: Env, env': Env, name: string)
    requires name in env
  {
    name in env' && env'[name] == env[name]
  }

  lemma {:induction false} UndefKeeps(args: seq<string>, env: Env, name: string)
    requires name in env && name !in args
    ensures Keeps(env, Undef(args, env).env, name)
  {
    if args != [] && args[0] in env {
      UndefKeeps(args[1..], env - {args[0]}, name);
    }
  }

  lemma {:induction false} StepKeepsValue(line: Line, st: State, name: string)
    requires st.err.None? && name in st.env && !LineMayUndef(line, name)
    ensures Keeps(st.env, Step(line, st).env, name)
    decreases line, 0
  {
    match line
    case Text(_) =>
    case Instr(op, args) =>
      if op == OpUndef {
        UndefKeeps(args, st.env, name);
      }
    case Builtin(args, expansion) =>
      RunKeepsValue(expansion, State([], st.env, st.out, None), name);
  }

  lemma {:induction false} RunKeepsValue(lines: seq<Line>, st: State, name: string)
    requires name in st.env && forall i :: 0 <= i < |lines| ==> !LineMayUndef(lines[i], name)
    ensures Keeps(st.env, Run(lines, st).env, name)
    decreases lines, 1
  {
    if lines != [] && st.err.None? {
      StepKeepsValue(lines[0], st, name);
      RunKeepsValue(lines[1..], Step(lines[0], st), name);
    }
  }

  /** Over a whole file, errors included, a variable keeps its first value unless some line may undefine it. */
  lemma FirstValueStays(before: seq<Line>, after: seq<Line>, env: Env, out: seq<Emitted>, name: string)
    requires !MayUndef(after, name)
    ensures var mid := Run(before, State([], env, out, None));
            name in mid.env ==> Keeps(mid.env, Process(before + after, env, out).env, name)
  {
    var st := State([], env, out, None);
    RunAppend(before, after, st);
    var mid := Run(before, st);
    if name in mid.env {
      RunKeepsValue(after, mid, name);
    }
  }

  // ---- conditions -------------------------------------------------------------------------------------

  const NO_WORDS: seq<string> := ["", "n", "0", "no", "false", "disabled"]

  /** `s` is the lower-case word `w`, in capitals or not. */
  predicate Spells(s: string, w: string) {
    |s| == |w| && forall i :: 0 <= i < |s| ==> s[i] == w[i] || ('A' <= s[i] <= 'Z' && s[i] as int + 32 == w[i] as int)
  }

  predicate LowerCase(w: string) {
    forall i :: 0 <= i < |w| ==> !('A' <= w[i] <= 'Z')
  }

  lemma {:induction false} LowerSpells(s: string, w: string)
    requires LowerCase(w)
    ensures Lower(s) == w <==> Spells(s, w)
  {
    if s != "" && |s| == |w| {
      LowerSpells(s[1..], w[1..]);
      var low := Lower(s);
      assert low[1..] == Lower(s[1..]) && w == [w[0]] + w[1..] && low == [low[0]] + low[1..];
      if Spells(s[1..], w[1..]) {
        assert forall i :: 1 <= i < |s| ==> s[i] == s[1..][i - 1] && w[i] == w[1..][i - 1];
      }
      if Spells(s, w) {
        assert forall i :: 0 <= i < |s| - 1 ==> s[1..][i] == s[i + 1] && w[1..][i] == w[i + 1];
      }
    }
  }

  /** A value counts as no. */
  ghost predicate SaysNo(value: string) {
    exists k :: 0 <= k < |NO_WORDS| && Spells(value, NO_WORDS[k])
  }

  lemma NoWords(value: string)
    ensures Falsy(value) <==> SaysNo(value)
  {
    forall k | 0 <= k < |NO_WORDS|
      ensures Spells(value, NO_WORDS[k]) <==> Lower(value) == NO_WORDS[k]
    {
      LowerSpells(value, NO_WORDS[k]);
    }
    assert Falsy(value) <==> Lower(value) in NO_WORDS by {
      assert NO_WORDS[0] == "" && NO_WORDS[1] == "n" && NO_WORDS[2] == "0";
      assert NO_WORDS[3] == "no" && NO_WORDS[4] == "false" && NO_WORDS[5] == "disabled";
    }
  }

  predicate PlainName(name: string) {
    && name != "" && name[0] != '!' && name[|name| - 1] != ':'
    && forall i :: 0 <= i < |name| ==> name[i] != '='
  }

  lemma {:induction false} IndexOfFirst(a: string, c: char, b: string)
    requires forall i :: 0 <= i < |a| ==> a[i] != c
    ensures IndexOf(a, c) == |a| && IndexOf(a + [c] + b, c) == |a|
  {
    if a != "" {
      assert (a + [c] + b)[1..] == a[1..] + [c] + b;
      IndexOfFirst(a[1..], c, b);
    }
  }

  /** A condition on a defined variable holds unless its value says no; an unknown one stops the run. */
  lemma NamedCondition(name: string, env: Env)
    requires PlainName(name)
    ensures name in env ==> (IfCondition([name], env) == Holds(!SaysNo(env[name])))
    ensures name !in env ==> IfCondition([name], env) == Rejected(NotDefined(name))
  {
    assert LeadingBangs(name) == 0 && name[0..] == name;
    IndexOfFirst(name, '=', "");
    assert name[..|name|] == name;
    if name in env {
      NoWords(env[name]);
    }
  }

  lemma JudgeDefault(raw: string, name: string, preset: string, env: Env)
    requires PlainName(name) && (raw == name || raw == name + ":")
    ensures Judge(raw + "=" + preset, false, env) == Holds(!Falsy(if name in env then env[name] else preset))
  {
    var body := raw + "=" + preset;
    IndexOfFirst(raw, '=', preset);
    assert body[..|raw|] == raw && body[|raw| + 1..] == preset;
    assert raw == name + ":" ==> raw[..|raw| - 1] == name;
  }

  /** NAME=preset and NAME:=preset use the preset only if NAME is unknown. */
  lemma DefaultCondition(name: string, preset: string, env: Env)
    requires PlainName(name)
    ensures var verdict := Holds(!SaysNo(if name in env then env[name] else preset));
            IfCondition([name + "=" + preset], env) == verdict == IfCondition([name + ":=" + preset], env)
  {
    var a, b := name + "=" + preset, name + ":=" + preset;
    assert b == (name + ":") + "=" + preset;
    assert LeadingBangs(a) == 0 == LeadingBangs(b) && a[0..] == a && b[0..] == b;
    JudgeDefault(name, name, preset, env);
    JudgeDefault(name + ":", name, preset, env);
    NoWords(if name in env then env[name] else preset);
  }

  /** Anything but one word, and a word without a name, is no condition. */
  lemma NoCondition(args: seq<string>, preset: string, env: Env)
    requires |args| != 1 || args[0] == ""
    ensures IfCondition(args, env) == Rejected(BadInstruction)
    ensures IfCondition(["=" + preset], env) == Rejected(BadInstruction)
  {
    var a := "=" + preset;
    assert LeadingBangs(a) == 0 && a[0..] == a && IndexOf(a, '=') == 0 && a[..0] == "";
  }
}
