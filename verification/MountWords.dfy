/** The words of a mount option string and what each of them does, whatever stands before it. */
module MountWords {
  import opened Wrappers
  import opened StrSplit
  import opened MountOpts

  datatype Pair = Pair(on: string, off: string, flag: Flag)

  /** Words that set a flag, and those that clear it; "async" and "sync" the wrong way round, as in the source. */
  const PAIRS: seq<Pair> := [
    Pair("noatime", "atime", NoAtime), Pair("nodev", "dev", NoDev), Pair("nodiratime", "diratime", NoDirAtime),
    Pair("noexec", "exec", NoExec), Pair("mand", "nomand", MandLock), Pair("relatime", "norelatime", RelAtime),
    Pair("strictatime", "nostrictatime", StrictAtime), Pair("nosuid", "suid", NoSuid), Pair("silent", "loud", Silent),
    Pair("ro", "rw", RdOnly), Pair("async", "sync", Synchronous)]

  /** Words that set a flag nothing clears. */
  const LONE: seq<Row> := [Row(Remount, "remount"), Row(Bind, "bind"), Row(DirSync, "dirsync")]

  const IGNORED: seq<string> := ["auto", "noauto", "loop", "_netdev", "defaults", "x-nopremount", "x-premount"]

  // ---- the tables agree -------------------------------------------------------------------------------

  ghost predicate GoodPair(p: Pair) {
    EffectOf(p.on) == Sets(p.flag) && EffectOf(p.off) == Clears(p.flag)
  }

  ghost predicate CleanPair(p: Pair) {
    Clean(p.on) && Clean(p.off)
  }

  lemma GoodPairs0()
    ensures GoodPair(PAIRS[0]) && GoodPair(PAIRS[1])
  {
  }

  lemma GoodPairs2()
    ensures GoodPair(PAIRS[2]) && GoodPair(PAIRS[3])
  {
  }

  lemma GoodPairs4()
    ensures GoodPair(PAIRS[4]) && GoodPair(PAIRS[5])
  {
  }

  lemma GoodPairs6()
    ensures GoodPair(PAIRS[6])
  {
  }

  lemma GoodPairs7()
    ensures GoodPair(PAIRS[7]) && GoodPair(PAIRS[8])
  {
  }

  lemma GoodPairs9()
    ensures GoodPair(PAIRS[9]) && GoodPair(PAIRS[10])
  {
  }

  lemma CleanPairs0()
    ensures CleanPair(PAIRS[0]) && CleanPair(PAIRS[1]) && CleanPair(PAIRS[2])
  {
  }

  lemma CleanPairs3()
    ensures CleanPair(PAIRS[3]) && CleanPair(PAIRS[4]) && CleanPair(PAIRS[5])
  {
  }

  lemma CleanPairs6()
    ensures CleanPair(PAIRS[6]) && CleanPair(PAIRS[7])
  {
  }

  lemma CleanPairs8()
    ensures CleanPair(PAIRS[8]) && CleanPair(PAIRS[9]) && CleanPair(PAIRS[10])
  {
  }

  lemma PairsAreGood(i: nat)
    requires i < |PAIRS|
    ensures GoodPair(PAIRS[i])
  {
    if i < 2 {
      GoodPairs0();
    } else if i < 4 {
      GoodPairs2();
    } else if i < 6 {
      GoodPairs4();
    } else if i == 6 {
      GoodPairs6();
    } else if i < 9 {
      GoodPairs7();
    } else {
      GoodPairs9();
    }
  }

  lemma PairsAreClean(i: nat)
    requires i < |PAIRS|
    ensures CleanPair(PAIRS[i])
  {
    if i < 3 {
      CleanPairs0();
    } else if i < 6 {
      CleanPairs3();
    } else if i < 8 {
      CleanPairs6();
    } else {
      CleanPairs8();
    }
  }

  lemma LoneAreGood(i: nat)
    requires i < |LONE|
    ensures EffectOf(LONE[i].option) == Sets(LONE[i].flag) && Clean(LONE[i].option)
  {
  }

  lemma IgnoredFront(i: nat)
    requires i < 4
    ensures EffectOf(IGNORED[i]) == Ignored && Clean(IGNORED[i])
  {
  }

  lemma IgnoredBack(i: nat)
    requires 4 <= i < |IGNORED|
    ensures EffectOf(IGNORED[i]) == Ignored && Clean(IGNORED[i])
  {
  }

  lemma IgnoredAreGood(i: nat)
    requires i < |IGNORED|
    ensures EffectOf(IGNORED[i]) == Ignored && Clean(IGNORED[i])
  {
    if i < 4 {
      IgnoredFront(i);
    } else {
      IgnoredBack(i);
    }
  }

  /** On none of the three lists. */
  ghost predicate Unlisted(word: string) {
    && (forall i :: 0 <= i < |PAIRS| ==> PAIRS[i].on != word && PAIRS[i].off != word)
    && (forall i :: 0 <= i < |LONE| ==> LONE[i].option != word)
    && word !in IGNORED
  }

  lemma UnlistedPairs(word: string)
    requires Unlisted(word)
    ensures word !in {"noatime", "atime", "nodev", "dev", "nodiratime", "diratime", "noexec", "exec"}
    ensures word !in {"mand", "nomand", "relatime", "norelatime", "strictatime", "nostrictatime"}
    ensures word !in {"nosuid", "suid", "silent", "loud", "ro", "rw", "async", "sync"}
  {
    assert PAIRS[0].on != word && PAIRS[1].on != word && PAIRS[2].on != word && PAIRS[3].on != word;
    assert PAIRS[4].on != word && PAIRS[5].on != word && PAIRS[6].on != word && PAIRS[7].on != word;
    assert PAIRS[8].on != word && PAIRS[9].on != word && PAIRS[10].on != word;
  }

  lemma UnlistedOthers(word: string)
    requires Unlisted(word)
    ensures word !in {"remount", "bind", "dirsync"}
    ensures word !in {"auto", "noauto", "loop", "_netdev", "defaults", "x-nopremount", "x-premount"}
  {
    assert LONE[0].option != word && LONE[1].option != word && LONE[2].option != word;
    assert IGNORED[0] != word && IGNORED[1] != word && IGNORED[2] != word && IGNORED[3] != word;
    assert IGNORED[4] != word && IGNORED[5] != word && IGNORED[6] != word;
  }

  lemma UnlistedIsUnrecognised(word: string)
    requires Unlisted(word)
    ensures EffectOf(word) == Unrecognised
  {
    UnlistedPairs(word);
    UnlistedOthers(word);
  }

  // ---- words at the end of an option string -----------------------------------------------------------

  lemma OneWordMore(s: string, word: string)
    requires Clean(word)
    ensures Parse(s + "," + word) == Apply(Parse(s), word) && Parse(word) == Apply(NOTHING, word)
  {
    WordsCut(s, ',', word, COMMA);
    WordsOfWord(word, COMMA);
    TokensAreWords(s, COMMA);
    TokensAreWords(word, COMMA);
    TokensAreWords(s + "," + word, COMMA);
    ParseAppend(Tokens(s, COMMA), [word], NOTHING);
    ParseOne(word, Parse(s));
    ParseOne(word, NOTHING);
  }

  /** Of a pair of words the last one decides its flag, and nothing else is touched. */
  lemma PairDecides(s: string, i: nat)
    requires i < |PAIRS|
    ensures Parse(s + "," + PAIRS[i].on) == Parse(s).(flags := Parse(s).flags + {PAIRS[i].flag})
    ensures Parse(s + "," + PAIRS[i].off) == Parse(s).(flags := Parse(s).flags - {PAIRS[i].flag})
  {
    PairsAreGood(i);
    PairsAreClean(i);
    OneWordMore(s, PAIRS[i].on);
    OneWordMore(s, PAIRS[i].off);
  }

  lemma LoneSets(s: string, i: nat)
    requires i < |LONE|
    ensures Parse(s + "," + LONE[i].option) == Parse(s).(flags := Parse(s).flags + {LONE[i].flag})
  {
    LoneAreGood(i);
    OneWordMore(s, LONE[i].option);
  }

  lemma IgnoredChangesNothing(s: string, i: nat)
    requires i < |IGNORED|
    ensures Parse(s + "," + IGNORED[i]) == Parse(s) && Parse(IGNORED[i]) == NOTHING
  {
    IgnoredAreGood(i);
    OneWordMore(s, IGNORED[i]);
  }

  /** Any other word is handed on as an option. */
  lemma UnlistedIsHandedOn(s: string, word: string)
    requires Clean(word) && Unlisted(word)
    ensures Parse(s + "," + word) == Parse(s).(opts := Parse(s).opts + [word])
  {
    UnlistedIsUnrecognised(word);
    OneWordMore(s, word);
  }

  lemma {:induction false} IgnoredTokens(words: seq<string>, p: Parsed)
    requires forall i :: 0 <= i < |words| ==> words[i] in IGNORED
    ensures ParseTokens(words, p) == p && AllClean(words)
    decreases words
  {
    if words != [] {
      var k :| 0 <= k < |IGNORED| && IGNORED[k] == words[0];
      IgnoredAreGood(k);
      IgnoredTokens(words[1..], p);
      assert AllClean(words) by {
        assert forall i :: 1 <= i < |words| ==> words[i] == words[1..][i - 1];
      }
    }
  }

  /** A string of ignored words says nothing. */
  lemma OnlyIgnored(words: seq<string>)
    requires forall i :: 0 <= i < |words| ==> words[i] in IGNORED
    ensures Parse(Join(",", words)) == NOTHING
  {
    IgnoredTokens(words, NOTHING);
    TokensOfJoined(words);
  }

  // ---- what is printed --------------------------------------------------------------------------------

  lemma {:induction false} AllRowsPrinted(flags: Flags, rows: seq<Row>)
    requires forall i :: 0 <= i < |rows| ==> rows[i].flag in flags
    ensures |PrintRows(flags, rows)| == |rows|
    ensures forall i :: 0 <= i < |rows| ==> PrintRows(flags, rows)[i] == rows[i].option
  {
    if rows != [] {
      AllRowsPrinted(flags, rows[1..]);
    }
  }

  lemma {:induction false} NoRowsPrinted(rows: seq<Row>)
    ensures PrintRows({}, rows) == []
  {
    if rows != [] {
      NoRowsPrinted(rows[1..]);
    }
  }

  const ALL_FLAGS: Flags := SURVIVING + {Move, Synchronous}

  /** All the flags the printer knows, in its order and spelling; and without any of them. */
  lemma PrintedInOrder()
    ensures PrintFlags(ALL_FLAGS) ==
            ["remount", "bind", "move", "dirsync", "mand", "noatime", "nodev", "nodiratime", "noexec", "nosuid"]
            + ["ro"] + ["relatime", "silent", "strictatime", "sync"]
    ensures PrintFlags({}) == ["rw"]
  {
    PrintedHead();
    PrintedTail();
    NoRowsPrinted(FIRST_ROWS + [Row(Move, "move")] + MIDDLE_ROWS);
    NoRowsPrinted(LAST_ROWS + [Row(Synchronous, "sync")]);
  }

  lemma PrintedHead()
    ensures PrintRows(ALL_FLAGS, FIRST_ROWS + [Row(Move, "move")] + MIDDLE_ROWS) ==
            ["remount", "bind", "move", "dirsync", "mand", "noatime", "nodev", "nodiratime", "noexec", "nosuid"]
  {
    AllRowsPrinted(ALL_FLAGS, FIRST_ROWS + [Row(Move, "move")] + MIDDLE_ROWS);
  }

  lemma PrintedTail()
    ensures PrintRows(ALL_FLAGS, LAST_ROWS + [Row(Synchronous, "sync")]) ==
            ["relatime", "silent", "strictatime", "sync"]
  {
    AllRowsPrinted(ALL_FLAGS, LAST_ROWS + [Row(Synchronous, "sync")]);
  }
}
