/** NUL-terminated records of /proc files: init/src/common/fs/process_info.c and str_dynarray.c. */
module ProcRead {
  import opened Wrappers
  import opened Chars
  import opened StrSplit
  import opened DynStr
  import opened FileRead

  predicate EndsInNul(s: string) {
    s != "" && s[|s| - 1] == NUL
  }

  /** The records of `s`: its NUL-separated fields, less the empty one after a final NUL. */
  function Records(s: string): seq<string> {
    var f := Fields(s, {NUL});
    if EndsInNul(s) then f[..|f| - 1] else f
  }

  /** Every record followed by NUL. */
  function Terminated(f: seq<string>): string {
    if f == [] then "" else f[0] + [NUL] + Terminated(f[1..])
  }

  /** `f` with `c` put behind its last field. */
  function OntoLast(f: seq<string>, c: char): seq<string>
    requires f != []
  {
    f[..|f| - 1] + [f[|f| - 1] + [c]]
  }

  lemma TerminatedOntoFirst(c: char, f: seq<string>)
    requires f != []
    ensures Terminated(OntoFirst(c, f)) == [c] + Terminated(f)
  {
    var rest := [NUL] + Terminated(f[1..]);
    assert OntoFirst(c, f)[1..] == f[1..];
    assert Terminated(f) == f[0] + rest;
    assert Terminated(OntoFirst(c, f)) == ([c] + f[0]) + rest;
  }

  lemma OntoBoth(c: char, f: seq<string>, d: char)
    requires f != []
    ensures OntoLast(OntoFirst(c, f), d) == OntoFirst(c, OntoLast(f, d))
  {
    if |f| == 1 {
      assert [c] + (f[0] + [d]) == ([c] + f[0]) + [d];
    } else {
      assert OntoLast(f, d)[0] == f[0];
    }
  }

  lemma {:induction false} TerminatedFields(s: string)
    ensures Terminated(Fields(s, {NUL})) == s + [NUL]
  {
    if s == "" {
      assert [""][1..] == [];
      assert Terminated([""]) == "" + [NUL] + Terminated([""][1..]);
    } else {
      var f := Fields(s[1..], {NUL});
      TerminatedFields(s[1..]);
      if s[0] == NUL {
        assert ([""] + f)[1..] == f;
      } else {
        TerminatedOntoFirst(s[0], f);
      }
      assert s == [s[0]] + s[1..];
    }
  }

  lemma FieldsAfterNul(s: string)
    ensures Fields(s + [NUL], {NUL}) == Fields(s, {NUL}) + [""]
  {
    FieldsCut(s, NUL, "", {NUL});
    assert s + [NUL] + "" == s + [NUL];
  }

  lemma {:induction false} FieldsAfterChar(s: string, c: char)
    requires c != NUL
    ensures Fields(s + [c], {NUL}) == OntoLast(Fields(s, {NUL}), c)
  {
    if s == "" {
      FieldsOfWord([c], {NUL});
      assert s + [c] == [c];
    } else {
      FieldsAfterChar(s[1..], c);
      assert (s + [c])[1..] == s[1..] + [c] && (s + [c])[0] == s[0];
      var f := Fields(s[1..], {NUL});
      if s[0] == NUL {
        assert [""] + OntoLast(f, c) == OntoLast([""] + f, c);
      } else {
        OntoBoth(s[0], f, c);
      }
    }
  }

  /** Nothing is lost and no record contains a NUL, also for empty input. */
  lemma RecordsAreLossless(s: string)
    ensures Terminated(Records(s)) == if EndsInNul(s) then s else s + [NUL]
    ensures forall i :: 0 <= i < |Records(s)| ==> NoNul(Records(s)[i])
  {
    FieldsAreFree(s, {NUL});
    TerminatedFields(s);
    if EndsInNul(s) {
      var front := s[..|s| - 1];
      assert s == front + [NUL];
      FieldsAfterNul(front);
      TerminatedFields(front);
      assert Records(s) == Fields(front, {NUL});
    }
  }

  /** dynarray_append_dynstr_unref(): moves the string out of the buffer. */
  method MoveOut(dynstr: DynStr) returns (r: Option<string>)
    requires dynstr.Valid() && NoNul(dynstr.Contents())
    modifies dynstr, dynstr.data
    ensures dynstr.Valid() && dynstr.Gone() && old(dynstr.allocations) <= dynstr.allocations <= old(dynstr.allocations) + 1
    ensures if r.None? then exists n :: old(dynstr.allocations) <= n < dynstr.allocations && dynstr.exhausted(n)
            else r.value == old(dynstr.Contents())
  {
    r := Terminate(dynstr);
  }

  /** One character of input: a NUL ends the record, anything else extends it. */
  method Consume(dynstr: DynStr, c: char, fields: seq<string>, ghost seen: string)
    returns (ok: bool, after: seq<string>)
    requires dynstr.Valid() && NoNul(dynstr.Contents())
    requires fields + [dynstr.Contents()] == Fields(seen, {NUL}) && (dynstr.data == null <==> EndsInNul(seen))
    modifies dynstr, dynstr.data
    ensures dynstr.Valid() && (dynstr.data != null ==> dynstr.data == old(dynstr.data) || fresh(dynstr.data))
    ensures old(dynstr.allocations) <= dynstr.allocations <= old(dynstr.allocations) + 1
    ensures !ok ==> exists n :: old(dynstr.allocations) <= n < dynstr.allocations && dynstr.exhausted(n)
    ensures ok ==>
              && NoNul(dynstr.Contents()) && after + [dynstr.Contents()] == Fields(seen + [c], {NUL})
              && (dynstr.data == null <==> EndsInNul(seen + [c]))
  {
    after := fields;
    if c == NUL {
      FieldsAfterNul(seen);
      var r := MoveOut(dynstr);
      ok := r.Some?;
      if ok {
        after := fields + [r.value];
      }
    } else {
      FieldsAfterChar(seen, c);
      ghost var f := Fields(seen, {NUL});
      assert f[..|f| - 1] == fields && f[|f| - 1] == dynstr.Contents();
      ok := dynstr.AppendChar(c);
    }
  }

  /** _proc_read_environ_or_cmdline_from_fd(): the records of the content, however it was cut up. */
  method ReadRecords(chunks: seq<string>, readError: bool, exhausted: nat -> bool)
    returns (ok: bool, fields: seq<string>)
    ensures ok ==> !readError && fields == Records(Concat(chunks))
    ensures !ok ==> readError || exists n :: 0 <= n < 2 + |Concat(chunks)| && exhausted(n)
  {
    fields := [];
    var dynstr := new DynStr(0, exhausted);
    if dynstr.data == null {
      return false, [];
    }
    for k := 0 to |chunks|
      invariant fresh(dynstr) && dynstr.Valid() && dynstr.exhausted == exhausted
      invariant dynstr.data != null ==> fresh(dynstr.data)
      invariant NoNul(dynstr.Contents())
      invariant var seen := Concat(chunks[..k]);
                && fields + [dynstr.Contents()] == Fields(seen, {NUL}) && (dynstr.data == null <==> EndsInNul(seen))
                && dynstr.allocations <= 1 + |seen|
    {
      ghost var before := Concat(chunks[..k]);
      var buf := chunks[k];
      ConcatLength(chunks, k);
      assert before + buf[..0] == before;
      for iter := 0 to |buf|
        invariant fresh(dynstr) && dynstr.Valid() && dynstr.exhausted == exhausted
        invariant dynstr.data != null ==> fresh(dynstr.data)
        invariant NoNul(dynstr.Contents())
        invariant var seen := before + buf[..iter];
                  && fields + [dynstr.Contents()] == Fields(seen, {NUL}) && (dynstr.data == null <==> EndsInNul(seen))
                  && dynstr.allocations <= 1 + |seen|
      {
        ghost var seen := before + buf[..iter];
        ok, fields := Consume(dynstr, buf[iter], fields, seen);
        if !ok {
          return;
        }
        assert seen + [buf[iter]] == before + buf[..iter + 1];
      }
      assert chunks[..k + 1][..k] == chunks[..k] && buf[..|buf|] == buf;
    }
    assert chunks[..|chunks|] == chunks;
    if readError {
      return false, fields;
    }
    ok := true;
    ghost var all := Fields(Concat(chunks), {NUL});
    assert all[..|all| - 1] == fields;
    if dynstr.data != null {
      var r := MoveOut(dynstr);
      if r.None? {
        return false, fields;
      }
      fields := fields + [r.value];
    }
  }
}
