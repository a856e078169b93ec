/**
When the reader's eager walk, and so the streaming machine, gives the meaning of a document:
conditions in skipped branches must be acceptable too, and an elseif after an elseif must not
be the one to take.
*/
module MetashMeaning {
  import opened Wrappers
  import opened Metash
  import opened MetashDocument
  import opened MetashStack

  // ---- skipped text: no effect, but its conditions are judged ------------------------------

  predicate JudgedDoc(d: Doc, env: Env) {
    match d
    case Nil => true
    case Cons(item, rest) => JudgedItem(item, env) && JudgedDoc(rest, env)
  }

  predicate JudgedItem(i: Item, env: Env) {
    match i
    case If(args, body, alt) => IfCondition(args, env).Holds? && JudgedDoc(body, env) && JudgedAlt(alt, env, true)
    case _ => true
  }

  predicate JudgedAlt(a: Alt, env: Env, first: bool) {
    match a
    case End => true
    case Else(body) => JudgedDoc(body, env)
    case ElseIf(args, body, alt) =>
      (first ==> IfCondition(args, env).Holds?) && JudgedDoc(body, env) && JudgedAlt(alt, env, false)
  }

  lemma {:induction false} SkippedDoc(d: Doc, s: Sem)
    requires s.err.None?
    ensures var r := EagerDoc(d, false, s);
            && r.env == s.env && r.out == s.out && (r.err.None? <==> JudgedDoc(d, s.env))
    decreases d
  {
    match d
    case Nil =>
    case Cons(item, rest) =>
      SkippedItem(item, s);
      var mid := EagerItem(item, false, s);
      if mid.err.None? {
        SkippedDoc(rest, mid);
      }
  }

  lemma {:induction false} SkippedItem(i: Item, s: Sem)
    requires s.err.None?
    ensures var r := EagerItem(i, false, s);
            && r.env == s.env && r.out == s.out && (r.err.None? <==> JudgedItem(i, s.env))
    decreases i
  {
    match i
    case If(args, body, alt) =>
      if IfCondition(args, s.env).Holds? {
        SkippedDoc(body, s);
        var mid := EagerDoc(body, false, s);
        if mid.err.None? {
          SkippedAlt(alt, false, IfCondition(args, s.env).value, First, mid);
        }
      }
    case _ =>
  }

  /** Once a branch was taken, or under a blind parent, the rest of the block is skipped. */
  lemma {:induction false} SkippedAlt(a: Alt, visible: bool, matched: bool, progress: Progress, s: Sem)
    requires s.err.None? && (!visible || matched) && progress != Past(true)
    ensures var r := EagerAlt(a, visible, matched, progress, s);
            && r.env == s.env && r.out == s.out && (r.err.None? <==> JudgedAlt(a, s.env, progress.First?))
    decreases a
  {
    match a
    case End =>
    case Else(body) => SkippedDoc(body, s);
    case ElseIf(args, body, alt) =>
      SkippedDoc(body, s);
      var mid := EagerDoc(body, false, s);
      if mid.err.None? {
        if progress.Past? {
          SkippedAlt(alt, visible, matched, progress, mid);
        } else if IfCondition(args, s.env).Holds? {
          SkippedAlt(alt, visible, matched || IfCondition(args, s.env).value, Past(false), mid);
        }
      }
  }

  // ---- supported documents ----------------------------------------------------------------

  predicate SupportedDoc(d: Doc, s: Sem) {
    s.err.None? ==>
      match d
      case Nil => true
      case Cons(item, rest) => SupportedItem(item, s) && SupportedDoc(rest, MeaningItem(item, s))
  }

  predicate SupportedItem(i: Item, s: Sem) {
    match i
    case Macro(args, body) => args != [] ==> SupportedDoc(body, s)
    case If(args, body, alt) =>
      (match IfCondition(args, s.env)
       case Rejected(_) => true
       case Holds(c) =>
         if c then
           SupportedDoc(body, s) &&
           var t := MeaningDoc(body, s); (t.err.None? ==> JudgedAlt(alt, t.env, true))
         else JudgedDoc(body, s.env) && SupportedAlt(alt, s, true))
    case _ => true
  }

  predicate SupportedAlt(a: Alt, s: Sem, first: bool) {
    match a
    case End => true
    case Else(body) => SupportedDoc(body, s)
    case ElseIf(args, body, alt) =>
      if !first then
        IfCondition(args, s.env) == Holds(false) && JudgedDoc(body, s.env) && SupportedAlt(alt, s, false)
      else match IfCondition(args, s.env)
        case Rejected(_) => true
        case Holds(c) =>
          if c then
            SupportedDoc(body, s) &&
            var t := MeaningDoc(body, s);
            (t.err.None? ==> !alt.ElseIf? && (alt.Else? ==> JudgedDoc(alt.body, t.env)))
          else JudgedDoc(body, s.env) && SupportedAlt(alt, s, false)
  }

  lemma {:induction false} EagerIsMeaningDoc(d: Doc, s: Sem)
    requires s.err.None? && SupportedDoc(d, s)
    ensures EagerDoc(d, true, s) == MeaningDoc(d, s)
    decreases d
  {
    match d
    case Nil =>
    case Cons(item, rest) =>
      EagerIsMeaningItem(item, s);
      var mid := MeaningItem(item, s);
      if mid.err.None? {
        EagerIsMeaningDoc(rest, mid);
      }
  }

  lemma {:induction false} EagerIsMeaningItem(i: Item, s: Sem)
    requires s.err.None? && SupportedItem(i, s)
    ensures EagerItem(i, true, s) == MeaningItem(i, s)
    decreases i
  {
    match i
    case Macro(args, body) =>
      if args != [] {
        EagerIsMeaningDoc(body, s);
      }
    case If(args, body, alt) =>
      match IfCondition(args, s.env) {
        case Rejected(_) =>
        case Holds(c) =>
          if c {
            EagerIsMeaningDoc(body, s);
            var t := MeaningDoc(body, s);
            if t.err.None? {
              SkippedAlt(alt, true, true, First, t);
            }
          } else {
            SkippedDoc(body, s);
            EagerIsMeaningAlt(alt, First, s);
          }
      }
    case _ =>
  }

  lemma {:induction false} EagerIsMeaningAlt(a: Alt, progress: Progress, s: Sem)
    requires s.err.None? && progress != Past(true) && SupportedAlt(a, s, progress.First?)
    ensures EagerAlt(a, true, false, progress, s) == MeaningAlt(a, s)
    decreases a
  {
    match a
    case End =>
    case Else(body) => EagerIsMeaningDoc(body, s);
    case ElseIf(args, body, alt) =>
      if IfCondition(args, s.env) == Holds(false) {
        SkippedDoc(body, s);
        EagerIsMeaningAlt(alt, Past(false), s);
      } else if IfCondition(args, s.env) == Holds(true) {
        EagerIsMeaningDoc(body, s);
        var t := MeaningDoc(body, s);
        if t.err.None? && alt.Else? {
          SkippedDoc(alt.body, t);
        }
      }
  }

  // ---- blocks with at most one elseif: every error-free run is supported -------------------

  predicate ShortDoc(d: Doc) {
    d.Cons? ==> ShortItem(d.item) && ShortDoc(d.rest)
  }

  predicate ShortItem(i: Item) {
    match i
    case Macro(_, body) => ShortDoc(body)
    case If(_, body, alt) => ShortDoc(body) && ShortAlt(alt)
    case _ => true
  }

  predicate ShortAlt(a: Alt) {
    match a
    case End => true
    case Else(body) => ShortDoc(body)
    case ElseIf(_, body, alt) => ShortDoc(body) && !alt.ElseIf? && ShortAlt(alt)
  }

  lemma {:induction false} CleanRunIsSupportedDoc(d: Doc, s: Sem)
    requires s.err.None? && ShortDoc(d) && EagerDoc(d, true, s).err.None?
    ensures SupportedDoc(d, s)
    decreases d
  {
    match d
    case Nil =>
    case Cons(item, rest) =>
      CleanRunIsSupportedItem(item, s);
      EagerIsMeaningItem(item, s);
      CleanRunIsSupportedDoc(rest, MeaningItem(item, s));
  }

  lemma {:induction false} CleanRunIsSupportedItem(i: Item, s: Sem)
    requires s.err.None? && ShortItem(i) && EagerItem(i, true, s).err.None?
    ensures SupportedItem(i, s)
    decreases i
  {
    match i
    case Macro(args, body) => CleanRunIsSupportedDoc(body, s);
    case If(args, body, alt) =>
      var c := IfCondition(args, s.env).value;
      if c {
        CleanRunIsSupportedDoc(body, s);
        EagerIsMeaningDoc(body, s);
        SkippedAlt(alt, true, true, First, MeaningDoc(body, s));
      } else {
        SkippedDoc(body, s);
        CleanRunIsSupportedAlt(alt, s);
      }
    case _ =>
  }

  lemma {:induction false} CleanRunIsSupportedAlt(a: Alt, s: Sem)
    requires s.err.None? && ShortAlt(a) && EagerAlt(a, true, false, First, s).err.None?
    ensures SupportedAlt(a, s, true)
    decreases a
  {
    match a
    case End =>
    case Else(body) => CleanRunIsSupportedDoc(body, s);
    case ElseIf(args, body, alt) =>
      var c := IfCondition(args, s.env).value;
      if c {
        CleanRunIsSupportedDoc(body, s);
        EagerIsMeaningDoc(body, s);
        if alt.Else? {
          SkippedDoc(alt.body, MeaningDoc(body, s));
        }
      } else {
        SkippedDoc(body, s);
        if alt.Else? {
          CleanRunIsSupportedDoc(alt.body, s);
        }
      }
  }

  // ---- main results -----------------------------------------------------------------------

  /**
  Streaming the lines of a supported document emits exactly the lines, with exactly the
  variables in force at each, that the recursive meaning gives, and ends with the same
  variables and the same error, if any.
  */
  lemma StreamingIsMeaning(d: Doc, env: Env)
    ensures SupportedDoc(d, Sem(env, [], None)) ==>
              Agrees(Process(FlattenDoc(d), env, []), [], MeaningDoc(d, Sem(env, [], None)))
  {
    StreamingIsEager(d, env, []);
    if SupportedDoc(d, Sem(env, [], None)) {
      EagerIsMeaningDoc(d, Sem(env, [], None));
    }
  }

  /**
  With at most one elseif a block, the reader succeeds exactly if the meaning is error free and
  every condition it judges in passing is acceptable.
  */
  lemma CleanRuns(d: Doc, env: Env)
    requires ShortDoc(d)
    ensures Process(FlattenDoc(d), env, []).err.None? <==>
              MeaningDoc(d, Sem(env, [], None)).err.None? && SupportedDoc(d, Sem(env, [], None))
  {
    var s := Sem(env, [], None);
    StreamingIsEager(d, env, []);
    if EagerDoc(d, true, s).err.None? {
      CleanRunIsSupportedDoc(d, s);
    }
    StreamingIsMeaning(d, env);
  }

  // ---- blocks with any number of elseifs --------------------------------------------------------

  /** Shown at `s`, the reader makes of `d` what it means; SupportedDoc() is one reason for that. */
  predicate ReadAsMeant(d: Doc, s: Sem) {
    EagerDoc(d, true, s) == MeaningDoc(d, s)
  }

  predicate BranchesReadAsMeant(a: Alt, s: Sem) {
    match a
    case End => true
    case Else(body) => ReadAsMeant(body, s)
    case ElseIf(_, body, alt) => ReadAsMeant(body, s) && BranchesReadAsMeant(alt, s)
  }

  /** The end of a block, without the elseif branches before it. */
  function Otherwise(a: Alt): Alt {
    if a.ElseIf? then Otherwise(a.alt) else a
  }

  /** The conditions inside the elseif branches of `a` are acceptable; those of the branches are not looked at. */
  predicate DroppedAreJudged(a: Alt, env: Env) {
    a.ElseIf? ==> JudgedDoc(a.body, env) && DroppedAreJudged(a.alt, env)
  }

  /** The branches after a failed first condition are read as meant. */
  predicate ReadableAlt(a: Alt, s: Sem) {
    a.ElseIf? ==>
      if IfCondition(a.args, s.env) == Holds(true) then
        !a.alt.ElseIf? && JudgedAlt(a.alt, MeaningDoc(a.body, s).env, false)
      else
        && JudgedDoc(a.body, s.env) && DroppedAreJudged(a.alt, s.env)
        && MeaningAlt(a.alt, s) == MeaningAlt(Otherwise(a.alt), s)
  }

  /**
  When a block is read as meant. If its first condition holds, what is skipped must be
  acceptable. If not, a first elseif that holds must be the last one, and after one that does
  not hold, dropping all further ones must make no difference.
  */
  predicate ReadableBlock(i: Item, s: Sem)
    requires i.If?
  {
    if IfCondition(i.args, s.env) == Holds(true) then JudgedAlt(i.alt, MeaningDoc(i.body, s).env, true)
    else JudgedDoc(i.body, s.env) && ReadableAlt(i.alt, s)
  }

  /** Past its first, hidden elseif a block drops all further ones and shows its else. */
  lemma {:induction false} DroppedAlt(a: Alt, s: Sem)
    requires s.err.None? && BranchesReadAsMeant(a, s)
    ensures var r := EagerAlt(a, true, false, Past(false), s);
            if DroppedAreJudged(a, s.env) then r == MeaningAlt(Otherwise(a), s) else r.err.Some?
    decreases a
  {
    if a.ElseIf? {
      SkippedDoc(a.body, s);
      var mid := EagerDoc(a.body, false, s);
      if mid.err.None? {
        DroppedAlt(a.alt, s);
      }
    }
  }

  lemma AltAgreement(a: Alt, s: Sem)
    requires s.err.None? && BranchesReadAsMeant(a, s) && MeaningAlt(a, s).err.None?
    ensures EagerAlt(a, true, false, First, s) == MeaningAlt(a, s) <==> ReadableAlt(a, s)
  {
    if a.ElseIf? {
      var t := MeaningDoc(a.body, s);
      if IfCondition(a.args, s.env) == Holds(true) {
        if !a.alt.ElseIf? && a.alt.Else? {
          SkippedDoc(a.alt.body, t);
        }
      } else {
        SkippedDoc(a.body, s);
        var mid := EagerDoc(a.body, false, s);
        if mid.err.None? {
          DroppedAlt(a.alt, s);
        }
      }
    }
  }

  /** The exact extent of the second-elseif defect, for any bodies and any number of branches. */
  lemma BlockAgreement(i: Item, s: Sem)
    requires i.If? && s.err.None? && MeaningItem(i, s).err.None?
    requires ReadAsMeant(i.body, s) && BranchesReadAsMeant(i.alt, s)
    ensures EagerItem(i, true, s) == MeaningItem(i, s) <==> ReadableBlock(i, s)
  {
    if IfCondition(i.args, s.env) == Holds(true) {
      SkippedAlt(i.alt, true, true, First, MeaningDoc(i.body, s));
    } else {
      SkippedDoc(i.body, s);
      AltAgreement(i.alt, s);
    }
  }

  /**
  A block that means something without error, met by the streaming reader anywhere it can see,
  is read as meant if and only if it is readable, provided what stands in its branches is.
  */
  lemma StreamedBlockAgreement(i: Item, st: State)
    requires i.If? && st.err.None? && GoodStack(st.stack) && !TopBlind(st.stack)
    requires MeaningItem(i, SemOf(st)).err.None?
    requires ReadAsMeant(i.body, SemOf(st)) && BranchesReadAsMeant(i.alt, SemOf(st))
    ensures Agrees(Run(FlattenItem(i), st), st.stack, MeaningItem(i, SemOf(st))) <==> ReadableBlock(i, SemOf(st))
  {
    StreamItem(i, st);
    BlockAgreement(i, SemOf(st));
  }

  /** As long as no further elseif is the one to take, dropping them makes no difference. */
  lemma {:induction false} NoneTakenIsReadable(a: Alt, s: Sem)
    requires NoElseIfTaken(a, s.env)
    ensures MeaningAlt(a, s) == MeaningAlt(Otherwise(a), s)
    decreases a
  {
    if a.ElseIf? {
      NoneTakenIsReadable(a.alt, s);
    }
  }

  predicate NoElseIfTaken(a: Alt, env: Env) {
    a.ElseIf? ==> IfCondition(a.args, env) == Holds(false) && NoElseIfTaken(a.alt, env)
  }

  // ---- whole documents, item by item --------------------------------------------------------------

  /** The first `n` items of a document. */
  function Take(d: Doc, n: nat): Doc {
    if n == 0 || d.Nil? then Nil else Cons(d.item, Take(d.rest, n - 1))
  }

  /** What stands inside an item is read as meant. */
  predicate PartsReadAsMeant(i: Item, s: Sem) {
    match i
    case Macro(_, body) => ReadAsMeant(body, s)
    case If(_, body, alt) => ReadAsMeant(body, s) && BranchesReadAsMeant(alt, s)
    case _ => true
  }

  predicate AllPartsReadAsMeant(d: Doc, s: Sem) {
    d.Cons? ==> PartsReadAsMeant(d.item, s) && AllPartsReadAsMeant(d.rest, MeaningItem(d.item, s))
  }

  /** Every block, as it is met, is readable. */
  predicate ReadableDoc(d: Doc, s: Sem) {
    d.Cons? ==> (d.item.If? ==> ReadableBlock(d.item, s)) && ReadableDoc(d.rest, MeaningItem(d.item, s))
  }

  lemma ItemAgreement(i: Item, s: Sem)
    requires s.err.None? && MeaningItem(i, s).err.None? && PartsReadAsMeant(i, s)
    ensures EagerItem(i, true, s) == MeaningItem(i, s) <==> (i.If? ==> ReadableBlock(i, s))
  {
    if i.If? {
      BlockAgreement(i, s);
    }
  }

  /** A readable document is read as meant up to any point. */
  lemma {:induction false} ReadableIsReadAsMeant(d: Doc, s: Sem, n: nat)
    requires s.err.None? && MeaningDoc(d, s).err.None? && AllPartsReadAsMeant(d, s) && ReadableDoc(d, s)
    ensures ReadAsMeant(Take(d, n), s)
    decreases d
  {
    if d.Cons? && n > 0 {
      var t := MeaningItem(d.item, s);
      ItemAgreement(d.item, s);
      ReadableIsReadAsMeant(d.rest, t, n - 1);
    }
  }

  lemma ReadOneAsMeant(i: Item, s: Sem)
    requires s.err.None?
    ensures ReadAsMeant(Cons(i, Nil), s) <==> EagerItem(i, true, s) == MeaningItem(i, s)
  {
    var d := Cons(i, Nil);
    assert MeaningDoc(d, s) == MeaningDoc(d.rest, MeaningItem(d.item, s));
    assert EagerDoc(d, true, s) == EagerDoc(d.rest, true, EagerItem(d.item, true, s));
  }

  /** A document read as meant up to any point is readable. */
  lemma {:induction false} ReadAsMeantIsReadable(d: Doc, s: Sem)
    requires s.err.None? && MeaningDoc(d, s).err.None? && AllPartsReadAsMeant(d, s)
    requires forall n: nat :: ReadAsMeant(Take(d, n), s)
    ensures ReadableDoc(d, s)
    decreases d
  {
    if d.Cons? {
      var t := MeaningItem(d.item, s);
      assert Take(d, 1) == Cons(d.item, Take(d.rest, 0));
      ReadOneAsMeant(d.item, s);
      ItemAgreement(d.item, s);
      forall n: nat
        ensures ReadAsMeant(Take(d.rest, n), t)
      {
        assert Take(d, n + 1) == Cons(d.item, Take(d.rest, n));
        assert ReadAsMeant(Take(d, n + 1), s);
      }
      ReadAsMeantIsReadable(d.rest, t);
    }
  }

  /** The streaming reader agrees with the meaning of the first `n` items. */
  ghost predicate AgreesUpTo(d: Doc, env: Env, n: nat) {
    Agrees(Process(FlattenDoc(Take(d, n)), env, []), [], MeaningDoc(Take(d, n), Sem(env, [], None)))
  }

  lemma AgreesIsReadAsMeant(d: Doc, env: Env, n: nat)
    ensures AgreesUpTo(d, env, n) <==> ReadAsMeant(Take(d, n), Sem(env, [], None))
  {
    StreamingIsEager(Take(d, n), env, []);
  }

  /**
  For every document that means something without error, whatever its blocks: the reader agrees
  with the meaning after each of its items if and only if every block is readable when it is met.
  */
  lemma DocumentAgreement(d: Doc, env: Env)
    requires MeaningDoc(d, Sem(env, [], None)).err.None? && AllPartsReadAsMeant(d, Sem(env, [], None))
    ensures (forall n: nat :: AgreesUpTo(d, env, n)) <==> ReadableDoc(d, Sem(env, [], None))
  {
    var s := Sem(env, [], None);
    if ReadableDoc(d, s) {
      forall n: nat
        ensures AgreesUpTo(d, env, n)
      {
        ReadableIsReadAsMeant(d, s, n);
        AgreesIsReadAsMeant(d, env, n);
      }
    }
    if forall n: nat :: AgreesUpTo(d, env, n) {
      forall n: nat
        ensures ReadAsMeant(Take(d, n), s)
      {
        AgreesIsReadAsMeant(d, env, n);
      }
      ReadAsMeantIsReadable(d, s);
    }
  }

  // ---- long elseif chains of plain text ---------------------------------------------------------

  /** if/elseif/.../else with one line of text in each branch. */
  function Chain(conditions: seq<string>, texts: seq<string>, otherwise: string): Alt
    requires |conditions| == |texts|
  {
    if conditions == [] then Else(Cons(Plain(otherwise), Nil))
    else ElseIf([conditions[0]], Cons(Plain(texts[0]), Nil), Chain(conditions[1..], texts[1..], otherwise))
  }

  function ChainDoc(conditions: seq<string>, texts: seq<string>, otherwise: string): Doc
    requires |conditions| == |texts| > 0
  {
    Cons(If([conditions[0]], Cons(Plain(texts[0]), Nil), Chain(conditions[1..], texts[1..], otherwise)), Nil)
  }

  ghost predicate Defined(conditions: seq<string>, env: Env) {
    forall i :: 0 <= i < |conditions| ==> IfCondition([conditions[i]], env).Holds?
  }

  predicate Taken(condition: string, env: Env) {
    IfCondition([condition], env) == Holds(true)
  }

  ghost predicate NoneTaken(conditions: seq<string>, env: Env) {
    forall i :: 0 <= i < |conditions| ==> !Taken(conditions[i], env)
  }

  function Shown(text: string, s: Sem): Sem {
    s.(out := s.out + [Emitted(s.env, text)])
  }

  lemma OneText(text: string, visible: bool, s: Sem)
    requires s.err.None?
    ensures MeaningDoc(Cons(Plain(text), Nil), s) == Shown(text, s)
    ensures EagerDoc(Cons(Plain(text), Nil), visible, s) == if visible then Shown(text, s) else s
  {
    var d := Cons(Plain(text), Nil);
    assert MeaningDoc(d, s) == MeaningDoc(d.rest, MeaningItem(d.item, s));
    assert EagerDoc(d, visible, s) == EagerDoc(d.rest, visible, EagerItem(d.item, visible, s));
  }

  lemma {:induction false} ChainMeaning(conditions: seq<string>, texts: seq<string>, otherwise: string, s: Sem)
    requires |conditions| == |texts| && Defined(conditions, s.env) && s.err.None?
    requires otherwise !in texts
    ensures var r := MeaningAlt(Chain(conditions, texts, otherwise), s);
            && r.err.None? && |r.out| == |s.out| + 1
            && (r == Shown(otherwise, s) <==> NoneTaken(conditions, s.env))
  {
    if conditions != [] {
      ChainMeaning(conditions[1..], texts[1..], otherwise, s);
      OneText(texts[0], true, s);
      if Taken(conditions[0], s.env) {
        assert Shown(texts[0], s).out[|s.out|].text == texts[0];
        assert Shown(otherwise, s).out[|s.out|].text == otherwise;
      } else {
        assert NoneTaken(conditions, s.env) <==> NoneTaken(conditions[1..], s.env);
      }
    } else {
      OneText(otherwise, true, s);
    }
  }

  /** Plain text is read as meant wherever it stands, and is nothing to judge. */
  lemma {:induction false} ChainIsPlain(conditions: seq<string>, texts: seq<string>, otherwise: string, s: Sem)
    requires |conditions| == |texts| && s.err.None?
    ensures var a := Chain(conditions, texts, otherwise);
            && BranchesReadAsMeant(a, s) && DroppedAreJudged(a, s.env) && JudgedAlt(a, s.env, false)
            && Otherwise(a) == Else(Cons(Plain(otherwise), Nil)) && (a.ElseIf? <==> conditions != [])
  {
    if conditions != [] {
      ChainIsPlain(conditions[1..], texts[1..], otherwise, s);
      OneText(texts[0], true, s);
    } else {
      OneText(otherwise, true, s);
    }
  }

  lemma ChainIsJudged(conditions: seq<string>, texts: seq<string>, otherwise: string, s: Sem)
    requires |conditions| == |texts| && Defined(conditions, s.env) && s.err.None?
    ensures JudgedAlt(Chain(conditions, texts, otherwise), s.env, true)
  {
    ChainIsPlain(conditions, texts, otherwise, s);
    if conditions != [] {
      ChainIsPlain(conditions[1..], texts[1..], otherwise, s);
    }
  }

  /** What a chain after a failed first condition needs in order to be read as meant. */
  lemma ReadableChain(conditions: seq<string>, texts: seq<string>, otherwise: string, s: Sem)
    requires |conditions| == |texts| && Defined(conditions, s.env) && s.err.None? && otherwise !in texts
    ensures ReadableAlt(Chain(conditions, texts, otherwise), s) <==> |conditions| <= 1 || NoneTaken(conditions, s.env)
  {
    if conditions != [] {
      var a, c, t := Chain(conditions, texts, otherwise), conditions[1..], texts[1..];
      assert a == ElseIf([conditions[0]], Cons(Plain(texts[0]), Nil), Chain(c, t, otherwise));
      if Taken(conditions[0], s.env) {
        OneText(texts[0], true, s);
        ChainIsPlain(c, t, otherwise, Shown(texts[0], s));
      } else {
        PlainIsJudged(texts[0], s.env);
        ChainIsPlain(c, t, otherwise, s);
        DroppingFromChain(c, t, otherwise, s);
        NoneTakenCons(conditions, s.env);
      }
    }
  }

  lemma DroppingFromChain(conditions: seq<string>, texts: seq<string>, otherwise: string, s: Sem)
    requires |conditions| == |texts| && Defined(conditions, s.env) && s.err.None? && otherwise !in texts
    ensures var a := Chain(conditions, texts, otherwise);
            MeaningAlt(a, s) == MeaningAlt(Otherwise(a), s) <==> NoneTaken(conditions, s.env)
  {
    OneText(otherwise, true, s);
    ChainIsPlain(conditions, texts, otherwise, s);
    ChainMeaning(conditions, texts, otherwise, s);
  }

  lemma NoneTakenCons(conditions: seq<string>, env: Env)
    requires conditions != [] && !Taken(conditions[0], env)
    ensures NoneTaken(conditions, env) <==> NoneTaken(conditions[1..], env)
  {
    if NoneTaken(conditions[1..], env) {
      forall i | 0 <= i < |conditions|
        ensures !Taken(conditions[i], env)
      {
        assert i > 0 ==> conditions[i] == conditions[1..][i - 1];
      }
    }
  }

  /**
  In a block of plain lines the condition is a plain one: it agrees with its meaning if and only
  if it has at most one elseif, or its first condition holds, or none does.
  */
  lemma ChainAgreement(conditions: seq<string>, texts: seq<string>, otherwise: string, env: Env)
    requires |conditions| == |texts| > 0 && Defined(conditions, env)
    requires otherwise !in texts
    ensures var d := ChainDoc(conditions, texts, otherwise);
            Agrees(Process(FlattenDoc(d), env, []), [], MeaningDoc(d, Sem(env, [], None)))
            <==> |conditions| <= 2 || Taken(conditions[0], env) || NoneTaken(conditions, env)
  {
    var d := ChainDoc(conditions, texts, otherwise);
    var s := Sem(env, [], None);
    StreamingIsEager(d, env, []);
    ChainBlock(conditions, texts, otherwise, s);
    BlockAgreement(d.item, s);
    assert MeaningDoc(d, s) == MeaningDoc(d.rest, MeaningItem(d.item, s));
    assert EagerDoc(d, true, s) == EagerDoc(d.rest, true, EagerItem(d.item, true, s));
  }

  lemma ChainBlock(conditions: seq<string>, texts: seq<string>, otherwise: string, s: Sem)
    requires |conditions| == |texts| > 0 && Defined(conditions, s.env) && s.err.None?
    requires otherwise !in texts
    ensures var i := ChainDoc(conditions, texts, otherwise).item;
            && MeaningItem(i, s).err.None? && ReadAsMeant(i.body, s) && BranchesReadAsMeant(i.alt, s)
            && (ReadableBlock(i, s) <==>
                  |conditions| <= 2 || Taken(conditions[0], s.env) || NoneTaken(conditions, s.env))
  {
    ChainBody(conditions, texts, otherwise, s);
    if Taken(conditions[0], s.env) {
      ChainFirstTaken(conditions, texts, otherwise, s);
    } else {
      ChainFirstNotTaken(conditions, texts, otherwise, s);
    }
  }

  lemma ChainBody(conditions: seq<string>, texts: seq<string>, otherwise: string, s: Sem)
    requires |conditions| == |texts| > 0 && Defined(conditions, s.env) && s.err.None?
    requires otherwise !in texts
    ensures var i := ChainDoc(conditions, texts, otherwise).item;
            MeaningItem(i, s).err.None? && ReadAsMeant(i.body, s) && BranchesReadAsMeant(i.alt, s)
  {
    var alt := Chain(conditions[1..], texts[1..], otherwise);
    ChainIsPlain(conditions[1..], texts[1..], otherwise, s);
    ChainMeaning(conditions[1..], texts[1..], otherwise, s);
    TextBlock(conditions[0], texts[0], alt, s);
  }

  lemma TextBlock(condition: string, text: string, alt: Alt, s: Sem)
    requires s.err.None? && IfCondition([condition], s.env).Holds? && MeaningAlt(alt, s).err.None?
    ensures var i := If([condition], Cons(Plain(text), Nil), alt); MeaningItem(i, s).err.None? && ReadAsMeant(i.body, s)
  {
    OneText(text, true, s);
  }

  lemma ChainFirstTaken(conditions: seq<string>, texts: seq<string>, otherwise: string, s: Sem)
    requires |conditions| == |texts| > 0 && Defined(conditions, s.env) && s.err.None?
    requires Taken(conditions[0], s.env)
    ensures ReadableBlock(ChainDoc(conditions, texts, otherwise).item, s)
  {
    OneText(texts[0], true, s);
    ChainIsJudged(conditions[1..], texts[1..], otherwise, Shown(texts[0], s));
  }

  lemma ChainFirstNotTaken(conditions: seq<string>, texts: seq<string>, otherwise: string, s: Sem)
    requires |conditions| == |texts| > 0 && Defined(conditions, s.env) && s.err.None?
    requires otherwise !in texts && !Taken(conditions[0], s.env)
    ensures ReadableBlock(ChainDoc(conditions, texts, otherwise).item, s) <==>
              |conditions| <= 2 || NoneTaken(conditions, s.env)
  {
    ReadableChain(conditions[1..], texts[1..], otherwise, s);
    NoneTakenCons(conditions, s.env);
    PlainIsJudged(texts[0], s.env);
  }

  lemma PlainIsJudged(text: string, env: Env)
    ensures JudgedDoc(Cons(Plain(text), Nil), env)
  {
    assert JudgedDoc(Nil, env) && JudgedItem(Plain(text), env);
  }

  /** The defect on the smallest input: with F false and T true the second branch should be shown. */
  lemma SecondElseIfIsRefused()
    ensures var env: Env := map["F" := "n", "T" := "y"];
            var d := ChainDoc(["F", "T", "T"], ["a", "b", "c"], "d");
            !Agrees(Process(FlattenDoc(d), env, []), [], MeaningDoc(d, Sem(env, [], None)))
  {
    var env: Env := map["F" := "n", "T" := "y"];
    PlainCondition("F", env);
    PlainCondition("T", env);
    assert Lower("n") == "n" && Lower("y") == "y";
    var conditions := ["F", "T", "T"];
    assert Taken(conditions[1], env) && !Taken(conditions[0], env);
    ChainAgreement(conditions, ["a", "b", "c"], "d", env);
  }

  lemma PlainCondition(name: string, env: Env)
    requires |name| == 1 && name[0] !in {'!', '=', ':'} && name in env
    ensures IfCondition([name], env) == Holds(!Falsy(env[name]))
  {
    assert LeadingBangs(name) == 0 && name[0..] == name;
    assert name[1..] == "" && IndexOf(name, '=') == 1 && name[..1] == name;
  }

  /** An additional leading '!' negates a condition and changes nothing else about it. */
  lemma BangNegates(arg: string, env: Env)
    ensures match Condition(arg, env)
            case Holds(c) => Condition("!" + arg, env) == Holds(!c)
            case Rejected(e) => Condition("!" + arg, env) == Rejected(e)
  {
    var n := LeadingBangs(arg);
    BangedCondition(arg, env);
    JudgeNegated(arg[n..], n % 2 == 1, env);
  }

  lemma BangedCondition(arg: string, env: Env)
    ensures var n := LeadingBangs(arg);
            Condition("!" + arg, env) == Judge(arg[n..], n % 2 != 1, env)
  {
    var n, longer := LeadingBangs(arg), "!" + arg;
    OneMoreBang(arg);
    ParityFlips(n);
    ConditionOf(longer, 1 + n, env);
  }

  lemma ParityFlips(n: nat)
    ensures ((1 + n) % 2 == 1) == (n % 2 != 1)
  {
  }

  lemma ConditionOf(arg: string, bangs: nat, env: Env)
    requires bangs == LeadingBangs(arg)
    ensures Condition(arg, env) == Judge(arg[bangs..], bangs % 2 == 1, env)
  {
  }

  lemma OneMoreBang(arg: string)
    ensures var n, longer := LeadingBangs(arg), "!" + arg;
            LeadingBangs(longer) == 1 + n && longer[1 + n..] == arg[n..]
  {
    assert ("!" + arg)[1..] == arg;
  }

  lemma JudgeNegated(body: string, negate: bool, env: Env)
    ensures match Judge(body, negate, env)
            case Holds(c) => Judge(body, !negate, env) == Holds(!c)
            case Rejected(e) => Judge(body, !negate, env) == Rejected(e)
  {
  }
}
