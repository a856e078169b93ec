/** The growable string of init/src/common/data_types/dynstr.c. */
module DynStr {
  import opened Wrappers
  import opened Chars

  const DEFAULT_SIZE := 32

  /** A character filter: given the length so far and the next character, what to append, if anything. */
  type Filter = (nat, char) -> Option<char>

  function Filtered(len: nat, s: string, f: Filter): (r: string)
    ensures |r| <= |s|
    decreases s
  {
    if s == "" then ""
    else match f(len, s[0])
      case None => Filtered(len, s[1..], f)
      case Some(c) => [c] + Filtered(len + 1, s[1..], f)
  }

  class DynStr {
    var data: array?<char>
    var currentSize: nat
    var maxSize: nat

    /** The n-th allocation fails if `exhausted(n)`. */
    const exhausted: nat -> bool
    var allocations: nat

    /** Characters moved by reallocations since the buffer was last empty-handed. */
    ghost var copied: nat

    ghost predicate Valid()
      reads this
    {
      && (data == null ==> currentSize == maxSize == 0)
      && (data != null ==> data.Length > 0)
      && (data != null && maxSize > 0 ==> data.Length == maxSize && currentSize < maxSize)
      && (maxSize == 0 ==> currentSize == 0)
      && copied <= maxSize
    }

    /** The string built so far. */
    function Contents(): (s: string)
      requires Valid()
      reads this, data
      ensures |s| == currentSize
    {
      if data == null then "" else data[..currentSize]
    }

    /** Nothing is left of a buffer after a failed allocation. */
    ghost predicate Gone()
      reads this
    {
      data == null && currentSize == maxSize == 0
    }

    /** dynstr_data_init(): allocates, but leaves the recorded capacity at 0. */
    constructor (initialSize: nat, exhausted: nat -> bool)
      ensures Valid() && Contents() == "" && this.exhausted == exhausted
      ensures data == null <==> exhausted(0)
      ensures data != null ==> fresh(data)
      ensures allocations == 1 && maxSize == 0
    {
      this.exhausted := exhausted;
      currentSize, maxSize, allocations, copied := 0, 0, 1, 0;
      if exhausted(0) {
        data := null;
      } else {
        var d := new char[if initialSize > 0 then initialSize else DEFAULT_SIZE];
        d[0] := NUL;
        data := d;
      }
    }

    method ResizeFreeOnError(newSize: nat) returns (ok: bool)
      requires Valid() && newSize > currentSize && newSize >= 2 * maxSize && newSize > 0
      modifies this
      ensures Valid() && allocations == old(allocations) + 1
      ensures ok == !exhausted(old(allocations))
      ensures ok ==> maxSize == newSize && Contents() == old(Contents()) && fresh(data) && data != null
      ensures ok ==> copied == old(copied) + currentSize
      ensures !ok ==> Gone()
    {
      ok := !exhausted(allocations);
      allocations := allocations + 1;
      if !ok {
        Free();
      } else {
        var d := new char[newSize];
        if data != null {
          forall i | 0 <= i < currentSize {
            d[i] := data[i];
          }
        }
        data, maxSize, copied := d, newSize, copied + currentSize;
      }
    }

    /**
    dynstr_data_resize(): doubles the capacity until the request fits strictly. A new capacity
    is at most twice the larger of the request and 1, so copying stays below the capacity.
    */
    method Resize(minSize: nat) returns (ok: bool)
      requires Valid() && currentSize <= minSize
      modifies this
      ensures Valid()
      ensures ok ==> data != null && maxSize > minSize && Contents() == old(Contents())
      ensures ok ==> data == old(data) || fresh(data)
      ensures ok && old(maxSize) > minSize ==> maxSize == old(maxSize) && data == old(data)
      ensures ok && old(maxSize) <= minSize ==> 2 * old(maxSize) <= maxSize <= 2 * if minSize > 1 then minSize else 1
      ensures !ok ==> Gone() && exists n :: old(allocations) <= n < allocations && exhausted(n)
      ensures old(allocations) <= allocations <= old(allocations) + 1
    {
      if minSize < maxSize {
        return true;
      }
      var newSize := 2 * if maxSize > 0 then maxSize else 1;
      while minSize >= newSize
        invariant newSize >= 2 && newSize >= 2 * maxSize
        invariant newSize <= 2 * if minSize > 1 then minSize else 1
        decreases minSize - newSize
      {
        newSize := newSize * 2;
      }
      ok := ResizeFreeOnError(newSize);
    }

    method Grow(numItems: nat) returns (ok: bool)
      requires Valid()
      modifies this
      ensures Valid()
      ensures ok ==> data != null && maxSize > currentSize + numItems && Contents() == old(Contents())
      ensures ok ==> data == old(data) || fresh(data)
      ensures !ok ==> Gone() && exists n :: old(allocations) <= n < allocations && exhausted(n)
      ensures old(allocations) <= allocations <= old(allocations) + 1
    {
      ok := Resize(currentSize + numItems);
    }

    /** dynstr_data_append_str(), with or without a character filter. */
    method AppendStr(s: string, filter: Option<Filter>) returns (ok: bool)
      requires Valid()
      modifies this, data
      ensures Valid()
      ensures ok ==> Contents() == old(Contents()) +
                       if filter.None? then s else Filtered(old(currentSize), s, filter.value)
      ensures ok ==> data != null && (data == old(data) || fresh(data))
      ensures !ok ==> Gone() && exists n :: old(allocations) <= n < allocations && exhausted(n)
      ensures old(allocations) <= allocations <= old(allocations) + 1
    {
      ok := Grow(|s|);
      if ok {
        if filter.None? {
          DoAppend(s);
        } else {
          DoAppendFiltered(s, filter.value);
        }
      }
    }

    method DoAppend(s: string)
      requires Valid() && data != null && maxSize > currentSize + |s|
      modifies this`currentSize, data
      ensures Valid() && Contents() == old(Contents()) + s
    {
      ghost var n := currentSize;
      for k := 0 to |s|
        invariant currentSize == n + k
        invariant data[..n] == old(Contents()) && data[n..n + k] == s[..k]
      {
        data[currentSize], currentSize := s[k], currentSize + 1;
        assert data[n..n + k] == s[..k];
      }
      assert data[..currentSize] == data[..n] + data[n..n + |s|];
    }

    method DoAppendFiltered(s: string, f: Filter)
      requires Valid() && data != null && maxSize > currentSize + |s|
      modifies this`currentSize, data
      ensures Valid() && Contents() == old(Contents()) + Filtered(old(currentSize), s, f)
    {
      ghost var n := currentSize;
      ghost var before := Contents();
      for k := 0 to |s|
        invariant n <= currentSize <= n + k
        invariant before + Filtered(n, s, f) == data[..currentSize] + Filtered(currentSize, s[k..], f)
      {
        assert s[k..][1..] == s[k + 1..];
        match f(currentSize, s[k]) {
          case None =>
          case Some(c) =>
            ghost var was := data[..currentSize];
            data[currentSize], currentSize := c, currentSize + 1;
            assert data[..currentSize] == was + [c];
        }
      }
    }

    method AppendStrSimple(s: string) returns (ok: bool)
      requires Valid()
      modifies this, data
      ensures Valid()
      ensures ok ==> Contents() == old(Contents()) + s
      ensures ok ==> data != null && (data == old(data) || fresh(data))
      ensures !ok ==> Gone() && exists n :: old(allocations) <= n < allocations && exhausted(n)
      ensures old(allocations) <= allocations <= old(allocations) + 1
    {
      ok := AppendStr(s, None);
    }

    /** dynstr_data_sjoin_append(): the separator is left out while the string is empty. */
    method SJoinAppend(separator: string, s: string) returns (ok: bool)
      requires Valid()
      modifies this, data
      ensures Valid()
      ensures ok ==> Contents() == old(Contents()) + (if old(currentSize) > 0 then separator else "") + s
      ensures ok ==> data != null && (data == old(data) || fresh(data))
      ensures !ok ==> Gone() && exists n :: old(allocations) <= n < allocations && exhausted(n)
      ensures old(allocations) <= allocations <= old(allocations) + 2
    {
      if currentSize > 0 {
        ok := AppendStr(separator, None);
        if !ok {
          return;
        }
      }
      ok := AppendStrSimple(s);
    }

    method AppendChar(c: char) returns (ok: bool)
      requires Valid()
      modifies this, data
      ensures Valid()
      ensures ok ==> Contents() == old(Contents()) + [c]
      ensures ok ==> data != null && (data == old(data) || fresh(data))
      ensures !ok ==> Gone() && exists n :: old(allocations) <= n < allocations && exhausted(n)
      ensures old(allocations) <= allocations <= old(allocations) + 1
    {
      ok := Grow(1);
      if ok {
        data[currentSize], currentSize := c, currentSize + 1;
      }
    }

    /** dynstr_data_append_null(): terminates the string without making it longer. */
    method AppendNull() returns (ok: bool)
      requires Valid()
      modifies this, data
      ensures Valid()
      ensures ok ==> Contents() == old(Contents()) && data != null && (data == old(data) || fresh(data))
      ensures ok ==> currentSize < data.Length && data[currentSize] == NUL
      ensures !ok ==> Gone() && exists n :: old(allocations) <= n < allocations && exhausted(n)
      ensures old(allocations) <= allocations <= old(allocations) + 1
    {
      ok := Grow(1);
      if ok {
        data[currentSize] := NUL;
      }
    }

    /** Cuts the string back to its first `size` characters, as which.c does by hand. */
    method CutTo(size: nat)
      requires Valid() && size <= currentSize
      modifies this`currentSize
      ensures Valid() && Contents() == old(Contents())[..size]
    {
      currentSize := size;
    }

    method RStripInPlace() returns (ok: bool)
      requires Valid()
      modifies this`currentSize, data
      ensures Valid()
      ensures ok == (data != null && RStrip(old(Contents())).ok)
      ensures Contents() == RStrip(old(Contents())).text
    {
      if data == null {
        return false;
      }
      ghost var before := Contents();
      assert before[..currentSize] == before;
      while currentSize > 0
        invariant Valid() && currentSize <= |before|
        invariant forall i :: 0 <= i < currentSize ==> data[i] == before[i]
        invariant RStrip(before) == RStrip(before[..currentSize])
        decreases currentSize
      {
        var c := data[currentSize - 1];
        assert before[..currentSize][..currentSize - 1] == before[..currentSize - 1];
        match StripClass(c) {
          case Keep =>
            return true;
          case Fail =>
            return false;
          case Drop =>
            if IsSpace(c) {
              data[currentSize - 1] := NUL;
            }
        }
        currentSize := currentSize - 1;
      }
      return true;
    }

    /** dynstr_data_unref(): hands the characters over and forgets them. */
    method Unref() returns (d: array?<char>)
      requires Valid()
      modifies this
      ensures d == old(data) && Valid() && Gone() && allocations == old(allocations)
    {
      d := data;
      data, currentSize, maxSize, copied := null, 0, 0, 0;
    }

    method Free()
      requires copied <= maxSize
      modifies this
      ensures Valid() && Gone() && allocations == old(allocations)
    {
      data, currentSize, maxSize, copied := null, 0, 0, 0;
    }
  }
}
