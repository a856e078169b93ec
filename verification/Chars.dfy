/** Characters as the C sources see them: bytes, with NUL as the end of a string. */
module Chars {
  import opened Wrappers

  const NUL: char := '\0'

  predicate NoNul(s: string) {
    forall i :: 0 <= i < |s| ==> s[i] != NUL
  }

  /** The C string stored in a buffer: everything before the first NUL. */
  function CString(buf: string): (s: string)
    ensures s <= buf && NoNul(s)
    ensures |s| < |buf| ==> buf[|s|] == NUL
  {
    if buf == "" || buf[0] == NUL then "" else [buf[0]] + CString(buf[1..])
  }

  lemma {:induction false} CStringIs(buf: string, s: string)
    requires NoNul(s) && |s| < |buf| && buf[..|s|] == s && buf[|s|] == NUL
    ensures CString(buf) == s
  {
    if s != "" {
      assert buf[0] == s[0];
      assert buf[1..][..|s| - 1] == s[1..];
      CStringIs(buf[1..], s[1..]);
    }
  }

  /** Horizontal and vertical tab, line feed, form feed, carriage return, space. */
  predicate IsSpace(c: char) {
    0x09 <= c as int <= 0x0D || c == ' '
  }

  /** What one round of dynstr_data_rstrip() makes of the last character. */
  datatype Strip = Keep | Drop | Fail

  function StripClass(c: char): Strip {
    if c == NUL || IsSpace(c) then Drop
    else if c as int >= 0x80 then Fail // negative as a signed char
    else if (c as int) < 0x21 || (c as int) >= 0x7F then Drop
    else Keep
  }

  datatype Stripped = Stripped(ok: bool, text: string)

  function RStrip(s: string): (r: Stripped)
    ensures |r.text| <= |s|
  {
    if s == "" then Stripped(true, "")
    else match StripClass(s[|s| - 1])
      case Keep => Stripped(true, s)
      case Fail => Stripped(false, s)
      case Drop => RStrip(s[..|s| - 1])
  }

  /**
  From the end, everything is dropped that is white space, a control character or DEL. What is
  left ends in a printable ASCII character, or stripping fails, exactly at a byte with the high
  bit set.
  */
  lemma {:induction false} RStripMeaning(s: string)
    ensures var r := RStrip(s);
            && r.text <= s
            && (forall i :: |r.text| <= i < |s| ==> StripClass(s[i]) == Drop)
            && (forall i :: |r.text| <= i < |s| ==> s[i] as int <= 0x20 || s[i] as int == 0x7F)
            && (r.text != "" ==> StripClass(r.text[|r.text| - 1]) == if r.ok then Keep else Fail)
            && (r.text != "" && r.ok ==> 0x21 <= r.text[|r.text| - 1] as int <= 0x7E)
            && (r.text != "" && !r.ok ==> 0x80 <= r.text[|r.text| - 1] as int)
            && (r.text == "" ==> r.ok)
  {
    if s != "" && StripClass(s[|s| - 1]) == Drop {
      RStripMeaning(s[..|s| - 1]);
    }
  }
}
