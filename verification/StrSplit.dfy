/** Splitting (init/src/common/strutil/split.c) and joining (join.c) of strings. */
module StrSplit {
  import opened Wrappers
  import opened Chars
  import D = DynStr

  type Delims = set<char>

  // ---- strtok_r(), as POSIX describes it ----------------------------------------------------

  /** `rest` is where the next call goes on. */
  datatype Token = NoToken | Token(text: string, rest: string)

  /** The length of the leading part of `s` that is inside, or outside, `d`. */
  function Span(s: string, d: Delims, inside: bool): (n: nat)
    ensures n <= |s|
    ensures forall i :: 0 <= i < n ==> (s[i] in d <==> inside)
    ensures n < |s| ==> (s[n] in d <==> !inside)
  {
    if s != "" && (s[0] in d <==> inside) then 1 + Span(s[1..], d, inside) else 0
  }

  function Strtok(s: string, d: Delims): (t: Token)
    ensures t.Token? ==> |t.rest| < |s| && t.text != ""
  {
    var body := s[Span(s, d, true)..];
    var n := Span(body, d, false);
    if body == "" then NoToken
    else Token(body[..n], if n == |body| then "" else body[n + 1..])
  }

  /** This token and all that follow it. */
  function From(t: Token, d: Delims): seq<string>
    decreases if t.NoToken? then 0 else 1 + |t.rest|
  {
    if t.NoToken? then [] else [t.text] + From(Strtok(t.rest, d), d)
  }

  function Tokens(s: string, d: Delims): seq<string> {
    From(Strtok(s, d), d)
  }

  /** The first token ends at `initial`, all later ones at `subsequent`. */
  function SplitWith(s: string, initial: Delims, subsequent: Delims): seq<string> {
    From(Strtok(s, initial), subsequent)
  }

  /** How to split: once at the first `at`, or at every delimiter. */
  datatype Cut = Once(at: char) | Repeated(initial: Option<Delims>, subsequent: Delims)

  /** At most two fields; the second one only if it is not empty. */
  function SplitOnce(s: string, at: char): seq<string> {
    var n := Span(s, {at}, false);
    [s[..n]] + if n + 1 < |s| then [s[n + 1..]] else []
  }

  function SplitAs(s: string, how: Cut): seq<string> {
    match how
    case Once(at) => SplitOnce(s, at)
    case Repeated(initial, subsequent) =>
      SplitWith(s, if initial.Some? then initial.value else subsequent, subsequent)
  }

  /** The first field is free of the delimiter, and nothing but one delimiter is lost. */
  lemma SplitOnceIsLossless(s: string, at: char)
    ensures var f := SplitOnce(s, at);
            && FreeOf(f[0], {at})
            && (|f| == 2 ==> s == f[0] + [at] + f[1])
            && (|f| != 2 ==> |f| == 1 && (s == f[0] || s == f[0] + [at]))
  {
    var n := Span(s, {at}, false);
    assert n == |s| ==> s[..n] == s;
    assert n < |s| ==> s == s[..n] + [s[n]] + s[n + 1..];
  }

  /** _do_str_split(): appends every field to `arr`. */
  method DoStrSplit(s: string, how: Cut, arr: seq<string>) returns (fields: seq<string>, count: nat)
    ensures fields == arr + SplitAs(s, how) && count == |SplitAs(s, how)|
  {
    fields, count := arr, 0;
    match how {
      case Once(at) =>
        var n := 0;
        while n < |s| && s[n] != at
          invariant 0 <= n <= |s|
          invariant forall i :: 0 <= i < n ==> s[i] != at
        {
          n := n + 1;
        }
        assert n == Span(s, {at}, false);
        fields, count := fields + [s[..n]], 1;
        if n + 1 < |s| {
          fields, count := fields + [s[n + 1..]], 2;
        }
      case Repeated(initial, subsequent) =>
        var t := Strtok(s, if initial.Some? then initial.value else subsequent);
        ghost var whole := arr + From(t, subsequent);
        while t.Token?
          invariant fields + From(t, subsequent) == whole && |fields| == |arr| + count
          decreases if t.NoToken? then 0 else 1 + |t.rest|
        {
          FromNext(fields, t, subsequent);
          fields, count := fields + [t.text], count + 1;
          t := Strtok(t.rest, subsequent);
        }
    }
  }

  lemma FromNext(before: seq<string>, t: Token, d: Delims)
    requires t.Token?
    ensures before + From(t, d) == (before + [t.text]) + From(Strtok(t.rest, d), d)
  {
    Regroup(before, t.text, From(Strtok(t.rest, d), d));
  }

  lemma Regroup(before: seq<string>, word: string, after: seq<string>)
    ensures before + ([word] + after) == (before + [word]) + after
  {
  }

  // ---- a character-by-character reference ---------------------------------------------------

  /** `f` with `c` put in front of its first field. */
  function OntoFirst(c: char, f: seq<string>): seq<string>
    requires f != []
  {
    [[c] + f[0]] + f[1..]
  }

  /** Cuts `s` at every delimiter, keeping empty fields. */
  function Fields(s: string, d: Delims): (f: seq<string>)
    ensures |f| > 0
  {
    if s == "" then [""]
    else if s[0] in d then [""] + Fields(s[1..], d)
    else OntoFirst(s[0], Fields(s[1..], d))
  }

  function NonEmpty(f: seq<string>): seq<string> {
    if f == [] then []
    else if f[0] == "" then NonEmpty(f[1..])
    else [f[0]] + NonEmpty(f[1..])
  }

  /** The delimiter-separated words of `s`. */
  function Words(s: string, d: Delims): seq<string> {
    NonEmpty(Fields(s, d))
  }

  predicate FreeOf(s: string, d: Delims) {
    forall i :: 0 <= i < |s| ==> s[i] !in d
  }

  lemma {:induction false} FieldsOfWord(s: string, d: Delims)
    requires FreeOf(s, d)
    ensures Fields(s, d) == [s]
  {
    if s != "" {
      FieldsOfWord(s[1..], d);
      assert [s[0]] + s[1..] == s;
    }
  }

  lemma {:induction false} FieldsCut(a: string, c: char, b: string, d: Delims)
    requires c in d
    ensures Fields(a + [c] + b, d) == Fields(a, d) + Fields(b, d)
  {
    var s := a + [c] + b;
    if a == "" {
      assert s[1..] == b;
    } else {
      FieldsCut(a[1..], c, b, d);
      assert s[1..] == a[1..] + [c] + b && s[0] == a[0];
      OntoFirstAppend(a[0], Fields(a[1..], d), Fields(b, d));
    }
  }

  lemma OntoFirstAppend(c: char, f: seq<string>, g: seq<string>)
    requires f != []
    ensures OntoFirst(c, f + g) == OntoFirst(c, f) + g
    ensures [""] + (f + g) == [""] + f + g
  {
    assert (f + g)[0] == f[0] && (f + g)[1..] == f[1..] + g;
  }

  lemma {:induction false} NonEmptyAppend(a: seq<string>, b: seq<string>)
    ensures NonEmpty(a + b) == NonEmpty(a) + NonEmpty(b)
  {
    if a == [] {
      assert a + b == b;
    } else {
      assert (a + b)[1..] == a[1..] + b;
      NonEmptyAppend(a[1..], b);
    }
  }

  /** Two pieces with a delimiter between them contribute their words one after the other. */
  lemma WordsCut(a: string, c: char, b: string, d: Delims)
    requires c in d
    ensures Words(a + [c] + b, d) == Words(a, d) + Words(b, d)
  {
    FieldsCut(a, c, b, d);
    NonEmptyAppend(Fields(a, d), Fields(b, d));
  }

  lemma WordsOfWord(s: string, d: Delims)
    requires FreeOf(s, d)
    ensures Words(s, d) == if s == "" then [] else [s]
  {
    FieldsOfWord(s, d);
    assert [s][1..] == [] && NonEmpty([s][1..]) == [];
  }

  lemma {:induction false} WordsSkip(s: string, d: Delims, n: nat)
    requires n <= |s| && forall i :: 0 <= i < n ==> s[i] in d
    ensures Words(s, d) == Words(s[n..], d)
    decreases n
  {
    if n == 0 {
      assert s[0..] == s;
    } else {
      assert s == "" + [s[0]] + s[1..];
      WordsCut("", s[0], s[1..], d);
      WordsOfWord("", d);
      WordsSkip(s[1..], d, n - 1);
      assert s[1..][n - 1..] == s[n..];
    }
  }

  /** A delimiter-free piece, followed by nothing or by a delimiter and more. */
  lemma WordsAhead(body: string, n: nat, d: Delims)
    requires 0 < n <= |body| && FreeOf(body[..n], d) && (n < |body| ==> body[n] in d)
    ensures Words(body, d) == [body[..n]] + Words(if n == |body| then "" else body[n + 1..], d)
  {
    WordsOfWord(body[..n], d);
    if n == |body| {
      assert body[..n] == body;
      WordsOfWord("", d);
    } else {
      assert body == body[..n] + [body[n]] + body[n + 1..];
      WordsCut(body[..n], body[n], body[n + 1..], d);
    }
  }

  /** Repeated strtok_r() yields exactly the words. */
  lemma {:induction false} TokensAreWords(s: string, d: Delims)
    ensures Tokens(s, d) == Words(s, d)
    decreases |s|
  {
    var k := Span(s, d, true);
    WordsSkip(s, d, k);
    var t := Strtok(s, d);
    if t.NoToken? {
      WordsOfWord("", d);
    } else {
      WordsAhead(s[k..], Span(s[k..], d, false), d);
      TokensAreWords(t.rest, d);
    }
  }

  // ---- splitting with two kinds of delimiters ---------------------------------------------------

  lemma {:induction false} SpanOver(a: string, c: char, b: string, d: Delims, inside: bool)
    requires (forall i :: 0 <= i < |a| ==> (a[i] in d <==> inside)) && (c in d <==> !inside)
    ensures Span(a + [c] + b, d, inside) == |a|
  {
    if a != "" {
      assert (a + [c] + b)[1..] == a[1..] + [c] + b;
      SpanOver(a[1..], c, b, d, inside);
    }
  }

  /** The first token ends at the first of the initial delimiters, and only the others cut the rest. */
  lemma SplitAtInitial(key: string, c: char, rest: string, initial: Delims, subsequent: Delims)
    requires key != "" && FreeOf(key, initial) && c in initial
    ensures SplitWith(key + [c] + rest, initial, subsequent) == [key] + Words(rest, subsequent)
  {
    var s := key + [c] + rest;
    SpanOver(key, c, rest, initial, false);
    assert s[0] == key[0] && s[0..] == s && s[..|key|] == key && s[|key| + 1..] == rest;
    TokensAreWords(rest, subsequent);
  }

  lemma StrtokOfWord(word: string, d: Delims)
    requires word != "" && FreeOf(word, d)
    ensures Strtok(word, d) == Token(word, "")
  {
    assert Span(word, d, true) == 0 && word[0..] == word;
    assert Span(word, d, false) == |word| && word[..|word|] == word;
  }

  lemma StrtokOfNothing(d: Delims)
    ensures Strtok("", d) == NoToken
  {
    assert Span("", d, true) == 0;
  }

  lemma StrtokSkips(c: char, rest: string, d: Delims)
    requires c in d
    ensures Strtok([c] + rest, d) == Strtok(rest, d)
  {
    var s, n := [c] + rest, Span(rest, d, true);
    assert s[1..] == rest;
    assert Span(s, d, true) == 1 + n;
    assert s[1 + n..] == rest[n..];
  }

  /** Without an initial delimiter there is nothing to cut. */
  lemma SplitOfKey(key: string, initial: Delims, subsequent: Delims)
    requires key != "" && FreeOf(key, initial)
    ensures SplitWith(key, initial, subsequent) == [key]
  {
    StrtokOfWord(key, initial);
    StrtokOfNothing(subsequent);
    assert From(NoToken, subsequent) == [];
  }

  /** Initial delimiters in front are skipped, and if there is nothing else there are no fields. */
  lemma SplitSkipsInitial(c: char, rest: string, initial: Delims, subsequent: Delims)
    requires c in initial
    ensures SplitWith([c] + rest, initial, subsequent) == SplitWith(rest, initial, subsequent)
    ensures SplitWith("", initial, subsequent) == []
  {
    StrtokSkips(c, rest, initial);
    StrtokOfNothing(initial);
  }

  // ---- joining --------------------------------------------------------------------------------

  /** The string after appending `words` to `acc`, a separator before each once `acc` is not empty. */
  function JoinOnto(acc: string, separator: string, words: seq<string>): string
    decreases words
  {
    if words == [] then acc
    else JoinOnto(acc + (if acc != "" then separator else "") + words[0], separator, words[1..])
  }

  function Join(separator: string, words: seq<string>): string {
    JoinOnto("", separator, words)
  }

  /** Every word behind a separator. */
  function Separated(separator: string, words: seq<string>): string {
    if words == [] then "" else separator + words[0] + Separated(separator, words[1..])
  }

  lemma {:induction false} JoinOntoIs(acc: string, separator: string, words: seq<string>)
    requires acc != ""
    ensures JoinOnto(acc, separator, words) == acc + Separated(separator, words)
    decreases words
  {
    if words != [] {
      JoinOntoIs(acc + separator + words[0], separator, words[1..]);
    } else {
      assert acc + "" == acc;
    }
  }

  /** Exactly one separator between any two words; empty ones in front leave no trace. */
  lemma JoinIs(separator: string, word: string, words: seq<string>)
    ensures Join(separator, []) == ""
    ensures word != "" ==> Join(separator, [word] + words) == word + Separated(separator, words)
    ensures word == "" ==> Join(separator, [word] + words) == Join(separator, words)
  {
    assert ([word] + words)[1..] == words && "" + "" + word == word;
    if word != "" {
      JoinOntoIs(word, separator, words);
    }
  }

  /** The elements that are not NULL. */
  function Present(words: seq<Option<string>>): seq<string> {
    if words == [] then []
    else if words[0].None? then Present(words[1..])
    else [words[0].value] + Present(words[1..])
  }

  function AllPresent(words: seq<string>): seq<Option<string>> {
    if words == [] then [] else [Some(words[0])] + AllPresent(words[1..])
  }

  lemma {:induction false} PresentOfAll(words: seq<string>)
    ensures Present(AllPresent(words)) == words && |AllPresent(words)| == |words|
    ensures forall i :: 0 <= i < |words| ==> AllPresent(words)[i] == Some(words[i])
  {
    if words != [] {
      PresentOfAll(words[1..]);
      assert AllPresent(words)[1..] == AllPresent(words[1..]);
    }
  }

  function SeparatorOf(separator: Option<string>): string {
    if separator.None? then "" else separator.value
  }

  /** One round of the join loop. */
  lemma JoinStep(acc: string, separator: string, words: seq<Option<string>>, k: nat)
    requires k < |words|
    ensures JoinOnto(acc, separator, Present(words[k..])) ==
            JoinOnto(if words[k].None? then acc else acc + (if acc != "" then separator else "") + words[k].value,
                     separator, Present(words[k + 1..]))
  {
    assert words[k..][1..] == words[k + 1..];
    if words[k].Some? {
      assert Present(words[k..])[1..] == Present(words[k + 1..]);
    }
  }

  /** join_str_array(); None stands for the NULL it returns when one of its allocations fails. */
  method JoinStrArray(separator: Option<string>, words: seq<Option<string>>, exhausted: nat -> bool)
    returns (r: Option<string>)
    requires separator.Some? ==> NoNul(separator.value)
    requires forall i :: 0 <= i < |words| && words[i].Some? ==> NoNul(words[i].value)
    ensures r.Some? ==> r.value == Join(SeparatorOf(separator), Present(words))
    ensures r.None? ==> exists n :: 0 <= n < 2 + 2 * |words| && exhausted(n)
  {
    if words == [] {
      return if exhausted(0) then None else Some("");
    }
    var dynstr := new D.DynStr(0, exhausted);
    if dynstr.data == null {
      return None;
    }
    ghost var sep := SeparatorOf(separator);
    assert words[0..] == words;
    for k := 0 to |words|
      invariant dynstr.Valid() && fresh(dynstr) && dynstr.data != null && fresh(dynstr.data)
      invariant dynstr.exhausted == exhausted && dynstr.allocations <= 1 + 2 * k
      invariant NoNul(dynstr.Contents())
      invariant Join(sep, Present(words)) == JoinOnto(dynstr.Contents(), sep, Present(words[k..]))
    {
      JoinStep(dynstr.Contents(), sep, words, k);
      if words[k].Some? {
        var ok := AppendNext(dynstr, separator, words[k].value);
        if !ok {
          return None;
        }
      }
    }
    assert words[|words|..] == [];
    r := Terminate(dynstr);
  }

  /** One element, behind a separator if there is one and the string is not empty. */
  method AppendNext(dynstr: D.DynStr, separator: Option<string>, word: string) returns (ok: bool)
    requires dynstr.Valid()
    modifies dynstr, dynstr.data
    ensures dynstr.Valid() && old(dynstr.allocations) <= dynstr.allocations <= old(dynstr.allocations) + 2
    ensures !ok ==> exists n :: old(dynstr.allocations) <= n < dynstr.allocations && dynstr.exhausted(n)
    ensures ok ==> dynstr.data != null && (dynstr.data == old(dynstr.data) || fresh(dynstr.data))
    ensures ok ==> dynstr.Contents() ==
                     old(dynstr.Contents()) + (if old(dynstr.Contents()) != "" then SeparatorOf(separator) else "") + word
  {
    if separator.None? || separator.value == "" {
      assert dynstr.Contents() + "" == dynstr.Contents();
      ok := dynstr.AppendStrSimple(word);
    } else {
      ok := dynstr.SJoinAppend(separator.value, word);
    }
  }

  /** Terminates the string and hands it over. */
  method Terminate(dynstr: D.DynStr) returns (r: Option<string>)
    requires dynstr.Valid() && NoNul(dynstr.Contents())
    modifies dynstr, dynstr.data
    ensures dynstr.Valid() && dynstr.Gone() && old(dynstr.allocations) <= dynstr.allocations <= old(dynstr.allocations) + 1
    ensures if r.None? then exists n :: old(dynstr.allocations) <= n < dynstr.allocations && dynstr.exhausted(n)
            else r.value == old(dynstr.Contents())
  {
    var ok := dynstr.AppendNull();
    if !ok {
      return None;
    }
    CStringIs(dynstr.data[..], dynstr.Contents());
    var d := dynstr.Unref();
    return Some(CString(d[..]));
  }

  lemma {:induction false} WordsOfJoin(acc: string, c: char, words: seq<string>, d: Delims)
    requires c in d && forall i :: 0 <= i < |words| ==> FreeOf(words[i], d)
    ensures Words(JoinOnto(acc, [c], words), d) == Words(acc, d) + NonEmpty(words)
    decreases words
  {
    if words != [] {
      var next := acc + (if acc != "" then [c] else "") + words[0];
      WordsOfJoin(next, c, words[1..], d);
      WordsOfWord(words[0], d);
      if acc == "" {
        assert next == words[0];
        WordsOfWord("", d);
      } else {
        WordsCut(acc, c, words[0], d);
      }
    }
  }

  /** Joining with one delimiter and splitting again gives the words back, empty ones aside. */
  lemma SplitOfJoin(c: char, words: seq<string>)
    requires forall i :: 0 <= i < |words| ==> FreeOf(words[i], {c})
    ensures Tokens(Join([c], words), {c}) == NonEmpty(words)
  {
    WordsOfJoin("", c, words, {c});
    WordsOfWord("", {c});
    TokensAreWords(Join([c], words), {c});
  }

  lemma {:induction false} NonEmptyOfNonEmpty(words: seq<string>)
    requires forall i :: 0 <= i < |words| ==> words[i] != ""
    ensures NonEmpty(words) == words
  {
    if words != [] {
      NonEmptyOfNonEmpty(words[1..]);
    }
  }
}
