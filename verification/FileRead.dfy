/** Reading files in chunks: init/src/common/fs/fileio.c and process_info.c. */
module FileRead {
  import opened Wrappers
  import opened Chars
  import opened StrSplit
  import opened DynStr

  /** What read(2) delivered, call by call; how it is cut up must not matter. */
  function Concat(chunks: seq<string>): string {
    if chunks == [] then "" else Concat(chunks[..|chunks| - 1]) + chunks[|chunks| - 1]
  }

  lemma {:induction false} ConcatLength(chunks: seq<string>, k: nat)
    requires k < |chunks|
    ensures |Concat(chunks[..k])| + |chunks[k]| <= |Concat(chunks)|
    decreases |chunks|
  {
    var front := chunks[..|chunks| - 1];
    if k < |front| {
      ConcatLength(front, k);
      assert front[..k] == chunks[..k];
    }
  }

  // ---- the command line ------------------------------------------------------------------------

  /** NUL and white space. */
  const SPACES: Delims := {NUL, '\t', '\n', '\U{B}', '\U{C}', '\r', ' '}

  /** _read_cmdline_file_convert_char(): delimiters become blanks, leading ones vanish. */
  function CmdlineFilter(len: nat, c: char): Option<char> {
    if c in SPACES then if len == 0 then None else Some(' ') else Some(c)
  }

  lemma {:induction false} FilteredAppend(len: nat, a: string, b: string, f: Filter)
    ensures Filtered(len, a + b, f) == Filtered(len, a, f) + Filtered(len + |Filtered(len, a, f)|, b, f)
    decreases a
  {
    if a == "" {
      assert a + b == b;
    } else {
      assert (a + b)[1..] == a[1..] + b;
      match f(len, a[0])
      case None => FilteredAppend(len, a[1..], b, f);
      case Some(c) => FilteredAppend(len + 1, a[1..], b, f);
    }
  }

  lemma {:induction false} FilteredNoNul(len: nat, s: string, f: Filter)
    requires forall n, c :: f(n, c) != Some(NUL)
    ensures NoNul(Filtered(len, s, f))
    decreases s
  {
    if s != "" {
      match f(len, s[0])
      case None => FilteredNoNul(len, s[1..], f);
      case Some(c) => FilteredNoNul(len + 1, s[1..], f);
    }
  }

  /** Past the first character the filter only renames delimiters, so the fields stay the same. */
  lemma {:induction false} FieldsOfFiltered(len: nat, s: string)
    requires len > 0
    ensures Fields(Filtered(len, s, CmdlineFilter), {' '}) == Fields(s, SPACES)
    decreases s
  {
    if s != "" {
      FieldsOfFiltered(len + 1, s[1..]);
      var c := CmdlineFilter(len, s[0]).value;
      var t := [c] + Filtered(len + 1, s[1..], CmdlineFilter);
      assert t[1..] == Filtered(len + 1, s[1..], CmdlineFilter);
    }
  }

  lemma {:induction false} WordsOfFiltered(s: string)
    ensures Words(Filtered(0, s, CmdlineFilter), {' '}) == Words(s, SPACES)
    decreases s
  {
    if s == "" {
      WordsOfWord("", SPACES);
      WordsOfWord("", {' '});
    } else if s[0] in SPACES {
      WordsOfFiltered(s[1..]);
      WordsSkip(s, SPACES, 1);
    } else {
      FieldsOfFiltered(1, s[1..]);
      var t := [s[0]] + Filtered(1, s[1..], CmdlineFilter);
      assert t[1..] == Filtered(1, s[1..], CmdlineFilter);
    }
  }

  ghost predicate AllDrop(s: string) {
    forall i :: 0 <= i < |s| ==> StripClass(s[i]) == Drop
  }

  lemma {:induction false} RStripAll(a: string, tail: string)
    requires AllDrop(tail)
    ensures RStrip(a + tail) == RStrip(a)
    decreases tail
  {
    if tail == "" {
      assert a + tail == a;
    } else {
      assert (a + tail)[..|a + tail| - 1] == a + tail[..|tail| - 1];
      RStripAll(a, tail[..|tail| - 1]);
    }
  }

  lemma {:induction false} FilteredDrops(len: nat, s: string)
    requires AllDrop(s)
    ensures AllDrop(Filtered(len, s, CmdlineFilter))
    decreases s
  {
    if s != "" {
      var r := CmdlineFilter(len, s[0]);
      if r.None? {
        FilteredDrops(len, s[1..]);
        assert Filtered(len, s, CmdlineFilter) == Filtered(len, s[1..], CmdlineFilter);
      } else {
        FilteredDrops(len + 1, s[1..]);
        assert Filtered(len, s, CmdlineFilter) == [r.value] + Filtered(len + 1, s[1..], CmdlineFilter);
        assert StripClass(r.value) == Drop;
      }
    }
  }

  lemma FilteredOne(n: nat, c: char)
    requires StripClass(c) != Drop
    ensures Filtered(n, [c], CmdlineFilter) == [c]
  {
    assert CmdlineFilter(n, c) == Some(c);
    assert [c][1..] == "";
    assert Filtered(n, [c], CmdlineFilter) == [c] + Filtered(n + 1, "", CmdlineFilter);
  }

  lemma RStripStops(front: string, c: char)
    requires StripClass(c) != Drop
    ensures RStrip(front + [c]) == Stripped(StripClass(c) == Keep, front + [c])
  {
  }

  /** A character that stays at the end of the content stays at the end of the filtered text. */
  lemma RStripOfKept(front: string, c: char)
    requires StripClass(c) != Drop
    ensures var ft := Filtered(0, front + [c], CmdlineFilter);
            RStrip(ft) == Stripped(StripClass(c) == Keep, ft)
  {
    FilteredAppend(0, front, [c], CmdlineFilter);
    FilteredOne(|Filtered(0, front, CmdlineFilter)|, c);
    RStripStops(Filtered(0, front, CmdlineFilter), c);
  }

  lemma RStripOfFilteredTail(t: string, tail: string)
    requires AllDrop(tail)
    ensures RStrip(Filtered(0, t + tail, CmdlineFilter)) == RStrip(Filtered(0, t, CmdlineFilter))
  {
    FilteredAppend(0, t, tail, CmdlineFilter);
    var ft := Filtered(0, t, CmdlineFilter);
    FilteredDrops(|ft|, tail);
    RStripAll(ft, Filtered(|ft|, tail, CmdlineFilter));
  }

  lemma RStripSplit(s: string) returns (t: string, tail: string)
    ensures s == t + tail && t == RStrip(s).text && AllDrop(tail)
    ensures t != "" ==> t == t[..|t| - 1] + [t[|t| - 1]] && StripClass(t[|t| - 1]) == if RStrip(s).ok then Keep else Fail
    ensures t == "" ==> RStrip(s).ok
  {
    RStripMeaning(s);
    t := RStrip(s).text;
    tail := s[|t|..];
  }

  /** Stripping the end commutes with filtering. */
  lemma RStripOfFiltered(s: string)
    ensures RStrip(Filtered(0, s, CmdlineFilter)) ==
            Stripped(RStrip(s).ok, Filtered(0, RStrip(s).text, CmdlineFilter))
  {
    var t, tail := RStripSplit(s);
    RStripOfFilteredTail(t, tail);
    if t == "" {
      assert Filtered(0, t, CmdlineFilter) == "" && RStrip("") == Stripped(true, "");
    } else {
      RStripOfKept(t[..|t| - 1], t[|t| - 1]);
    }
  }

  /** Made of printable ASCII, white space and NUL only. */
  ghost predicate Plain(s: string) {
    forall i :: 0 <= i < |s| ==> s[i] == NUL || 9 <= s[i] as int <= 13 || 0x20 <= s[i] as int <= 0x7E
  }

  /** White space is what isspace() says in the C locale, and NUL counts as white space too. */
  lemma SpacesAre(c: char)
    ensures c in SPACES <==> c as int == 0 || 9 <= c as int <= 13 || c as int == 32
  {
  }

  lemma {:induction false} WordsDropTail(s: string, n: nat)
    requires n <= |s| && forall i :: n <= i < |s| ==> s[i] in SPACES
    ensures Words(s, SPACES) == Words(s[..n], SPACES)
    decreases |s|
  {
    if n == |s| {
      assert s[..n] == s;
    } else {
      var front := s[..|s| - 1];
      assert s == front + [s[|s| - 1]] + "";
      WordsCut(front, s[|s| - 1], "", SPACES);
      WordsOfWord("", SPACES);
      WordsDropTail(front, n);
      assert front[..n] == s[..n];
    }
  }

  lemma PlainStrip(s: string)
    requires Plain(s)
    ensures RStrip(s).ok && Words(RStrip(s).text, SPACES) == Words(s, SPACES)
  {
    RStripMeaning(s);
    var t := RStrip(s).text;
    assert t == s[..|t|];
    forall i | |t| <= i < |s|
      ensures s[i] in SPACES
    {
      assert StripClass(s[i]) == Drop;
      SpacesAre(s[i]);
    }
    WordsDropTail(s, |t|);
    if t != "" {
      assert t[|t| - 1] == s[|t| - 1];
    }
  }

  /**
  The words read from a command line file with any content: those of the content without its
  strippable end. Reading fails exactly if that end stops at a byte with the high bit set; for
  plain text it never fails and nothing is lost.
  */
  lemma CmdlineWords(s: string)
    ensures var r := RStrip(Filtered(0, s, CmdlineFilter));
            && r.ok == RStrip(s).ok
            && Tokens(r.text, {' '}) == Words(RStrip(s).text, SPACES)
            && (Plain(s) ==> r.ok && Tokens(r.text, {' '}) == Words(s, SPACES))
  {
    RStripOfFiltered(s);
    WordsOfFiltered(RStrip(s).text);
    TokensAreWords(Filtered(0, RStrip(s).text, CmdlineFilter), {' '});
    if Plain(s) {
      PlainStrip(s);
    }
  }

  // ---- the read loop ---------------------------------------------------------------------------

  lemma ChunkStep(chunks: seq<string>, k: nat, f: Filter)
    requires k < |chunks|
    ensures var sofar := Filtered(0, Concat(chunks[..k]), f);
            Filtered(0, Concat(chunks[..k + 1]), f) == sofar + Filtered(|sofar|, chunks[k], f)
  {
    assert chunks[..k + 1][..k] == chunks[..k];
    FilteredAppend(0, Concat(chunks[..k]), chunks[k], f);
  }

  /** _read_file_to_str(); `readError` tells whether the last read(2) failed instead of returning 0. */
  method ReadFileToStr(chunks: seq<string>, readError: bool, f: Filter, exhausted: nat -> bool)
    returns (ret: int, text: Option<string>)
    requires forall n, c :: f(n, c) != Some(NUL)
    ensures ret in {0, -1, -5}
    ensures var r := RStrip(Filtered(0, Concat(chunks), f));
            if ret == -1 then text == None && (!r.ok || exists n :: 0 <= n < 2 + |chunks| && exhausted(n))
            else r.ok && text == Some(r.text) && (ret == -5 <==> readError)
  {
    var dynstr := new DynStr(0, exhausted);
    if dynstr.data == null {
      return -1, None;
    }
    for k := 0 to |chunks|
      invariant dynstr.Valid() && dynstr.data != null && fresh(dynstr) && fresh(dynstr.data)
      invariant dynstr.exhausted == exhausted && dynstr.allocations <= 1 + k
      invariant dynstr.Contents() == Filtered(0, Concat(chunks[..k]), f)
    {
      ChunkStep(chunks, k, f);
      var ok := dynstr.AppendStr(chunks[k], Some(f));
      if !ok {
        return -1, None;
      }
    }
    assert chunks[..|chunks|] == chunks;
    FilteredNoNul(0, Concat(chunks), f);
    text := Finish(dynstr);
    return if text.None? then -1 else if readError then -5 else 0, text;
  }

  /** Strips the end, terminates the string and hands it over. */
  method Finish(dynstr: DynStr) returns (text: Option<string>)
    requires dynstr.Valid() && dynstr.data != null && NoNul(dynstr.Contents())
    modifies dynstr, dynstr.data
    ensures var r := RStrip(old(dynstr.Contents()));
            if text.None? then
              !r.ok || exists n :: old(dynstr.allocations) <= n < dynstr.allocations && dynstr.exhausted(n)
            else r.ok && text == Some(r.text)
    ensures dynstr.allocations <= old(dynstr.allocations) + 1
  {
    RStripMeaning(dynstr.Contents());
    var ok := dynstr.RStripInPlace();
    if !ok {
      return None;
    }
    ghost var stripped := dynstr.Contents();
    ok := dynstr.AppendChar(NUL);
    if !ok {
      return None;
    }
    assert dynstr.Contents() == stripped + [NUL];
    CStringIs(dynstr.data[..], stripped);
    var d := dynstr.Unref();
    return Some(CString(d[..]));
  }

  /** read_cmdline_file(): the words of the file, however the reads were cut. */
  method ReadCmdlineFile(chunks: seq<string>, readError: bool, exhausted: nat -> bool)
    returns (ret: int, words: seq<string>)
    ensures ret == 0 ==> words == Words(RStrip(Concat(chunks)).text, SPACES)
    ensures ret == 0 && Plain(Concat(chunks)) ==> words == Words(Concat(chunks), SPACES)
    ensures ret != 0 ==>
              readError || !RStrip(Concat(chunks)).ok || exists n :: 0 <= n < 2 + |chunks| && exhausted(n)
  {
    CmdlineFilterNoNul();
    CmdlineWords(Concat(chunks));
    var text;
    ret, text := ReadFileToStr(chunks, readError, CmdlineFilter, exhausted);
    words := [];
    if ret == 0 {
      words := SplitBlanks(text.value);
    }
  }

  lemma CmdlineFilterNoNul()
    ensures forall n, c :: CmdlineFilter(n, c) != Some(NUL)
  {
  }

  method SplitBlanks(text: string) returns (words: seq<string>)
    ensures words == Tokens(text, {' '})
  {
    var count;
    words, count := DoStrSplit(text, Repeated(None, {' '}), []);
    assert [] + Tokens(text, {' '}) == words;
  }

  /** Joining the words read with one blank and splitting again changes nothing. */
  lemma RejoinedCmdline(s: string)
    ensures Tokens(Join(" ", Words(s, SPACES)), {' '}) == Words(s, SPACES)
  {
    WordsAreClean(Fields(s, SPACES), SPACES);
    FieldsAreFree(s, SPACES);
    SplitOfJoin(' ', Words(s, SPACES));
    NonEmptyOfNonEmpty(Words(s, SPACES));
  }

  lemma {:induction false} FieldsAreFree(s: string, d: Delims)
    ensures forall i :: 0 <= i < |Fields(s, d)| ==> FreeOf(Fields(s, d)[i], d)
  {
    if s != "" {
      FieldsAreFree(s[1..], d);
    }
  }

  lemma {:induction false} WordsAreClean(f: seq<string>, d: Delims)
    ensures forall i :: 0 <= i < |NonEmpty(f)| ==> NonEmpty(f)[i] != "" && NonEmpty(f)[i] in f
  {
    if f != [] {
      WordsAreClean(f[1..], d);
    }
  }
}
