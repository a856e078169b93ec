/** Sizing arithmetic of the zram tools, with the machine's integer widths written out. */
module ZramSize {
  import opened Wrappers

  const MIB: nat := 1048576
  const SIZE_T: nat := 0x1_0000_0000_0000_0000
  const UNSIGNED: nat := 0x1_0000_0000

  // ---- device size in bytes ---------------------------------------------------------------

  /** get_zram_dev_size_b(): MiB to bytes, rounded up to the page size if that is known. */
  function SizeInBytes(sizeM: nat, pageSize: nat): (sizeB: nat)
    requires pageSize < SIZE_T
    ensures sizeB < SIZE_T
  {
    var bytes := (MIB * sizeM) % SIZE_T;
    if pageSize > 0 && bytes % pageSize != 0
    then (bytes - bytes % pageSize + pageSize) % SIZE_T
    else bytes
  }

  function RoundUp(n: nat, page: nat): (r: nat)
    requires page > 0
  {
    if n % page == 0 then n else n - n % page + page
  }

  lemma RoundUpIsLeast(n: nat, page: nat, m: nat)
    requires page > 0 && m % page == 0 && n <= m
    ensures n <= RoundUp(n, page) <= m && RoundUp(n, page) % page == 0
  {
    if n % page != 0 {
      var q, r, k := n / page, n % page, m / page;
      assert RoundUp(n, page) == page * q + page == page * (q + 1);
      assert page * q < page * k;
      if k < q + 1 {
        MulMono(page, k, q);
      }
      MulMono(page, q + 1, k);
      MultipleMod(page, q + 1);
    }
  }

  lemma MulMono(a: nat, b: int, c: int)
    requires b <= c
    ensures a * b <= a * c
  {
  }

  lemma MultipleMod(page: nat, q: nat)
    requires page > 0
    ensures (page * q) % page == 0
  {
    var x := page * q;
    assert x == page * (x / page) + x % page;
    if x % page != 0 {
      assert page * (q - x / page) == x % page;
      assert false by {
        if q - x / page <= 0 {
          MulMono(page, q - x / page, 0);
        } else {
          MulMono(page, 1, q - x / page);
        }
      }
    }
  }

  /**
  The byte size is the least page multiple not below the MiB size exactly as long as that
  multiple fits a size_t; past that point it wraps to something smaller than was asked for.
  */
  lemma SizeIsLeastPageMultiple(sizeM: nat, pageSize: nat)
    requires 0 < pageSize < 18446744073709551616
    ensures var n := 1048576 * sizeM;
            && (SizeInBytes(sizeM, pageSize) >= n <==> RoundUp(n, pageSize) < 18446744073709551616)
            && (RoundUp(n, pageSize) < 18446744073709551616 ==> SizeInBytes(sizeM, pageSize) == RoundUp(n, pageSize))
    ensures 1048576 * sizeM < 18446744073709551616 ==> SizeInBytes(sizeM, 0) == 1048576 * sizeM
  {
    var n := MIB * sizeM;
    if n < SIZE_T {
      assert n % SIZE_T == n;
    }
  }

  // ---- fractional autoswap ----------------------------------------------------------------

  /** calculate_zram_autoswap_size(): MiB for each of `swaps` devices; None stands for division by zero. */
  function AutoswapSize(swaps: int, fraction: nat, memoryM: nat): (size: Option<nat>)
    requires swaps < 0x8000_0000 && fraction < 0x1_0000
  {
    if swaps < 1 || fraction < 1 || memoryM < 1 then Some(0)
    else
      var divisor := (swaps * fraction) % UNSIGNED;
      if divisor == 0 then None else Some(memoryM / divisor)
  }

  lemma DivBounds(a: nat, b: nat)
    requires b > 0
    ensures b * (a / b) <= a < b * (a / b) + b
  {
  }

  lemma DivLower(a: nat, b: nat, q: nat)
    requires b > 0 && b * q <= a
    ensures q <= a / b
  {
    DivBounds(a, b);
    if q > a / b {
      MulMono(b, a / b + 1, q);
    }
  }

  /**
  All devices together stay within floor(memory/fraction) exactly if the product of device
  count and fraction fits an unsigned int, or each device gets nothing; and in the first case
  they fall short of that budget by less than one MiB a device.
  */
  lemma AutoswapBudget(swaps: nat, fraction: nat, memoryM: nat, size: nat)
    requires 1 <= swaps < 0x8000_0000 && 1 <= fraction < 0x1_0000 && memoryM >= 1
    requires AutoswapSize(swaps, fraction, memoryM) == Some(size)
    ensures swaps * size <= memoryM / fraction <==>
              swaps * fraction < 4294967296 || memoryM < (swaps * fraction) % 4294967296
    ensures swaps * fraction < 4294967296 ==> memoryM / fraction - swaps * size < swaps
  {
    var p := swaps * fraction;
    assert p > 0 by { MulMono(swaps, 1, fraction); }
    var d := p % UNSIGNED;
    assert d > 0 && size == memoryM / d;
    if p < UNSIGNED {
      assert d == p;
      Within(swaps, fraction, memoryM, size);
    } else {
      Wrapped(swaps, fraction, memoryM, d);
    }
  }

  lemma Wrapped(swaps: nat, fraction: nat, m: nat, d: nat)
    requires fraction >= 1 && swaps * fraction >= UNSIGNED && d == (swaps * fraction) % UNSIGNED && d > 0
    ensures swaps * (m / d) <= m / fraction <==> m < d
  {
    if m < d {
      assert m / d == 0;
    } else {
      WrappedIsOver(swaps * fraction, d, m);
      Over(swaps, fraction, m, m / d);
    }
  }

  lemma WrappedIsOver(p: nat, d: nat, m: nat)
    requires p >= UNSIGNED && d == p % UNSIGNED && 0 < d <= m
    ensures p * (m / d) > m
  {
    DivLower(m, d, 1);
    DivBounds(m, d);
    Exceeds(p, d, m / d, m);
  }

  lemma Within(swaps: nat, fraction: nat, m: nat, size: nat)
    requires swaps >= 1 && fraction >= 1 && swaps * fraction > 0 && size == m / (swaps * fraction)
    ensures 0 <= m / fraction - swaps * size < swaps
  {
    var p, b := swaps * fraction, m / fraction;
    DivBounds(m, p);
    DivBounds(m, fraction);
    assert fraction * (swaps * size) == p * size;
    DivLower(m, fraction, swaps * size);
    assert fraction * (swaps * size + swaps) == fraction * (swaps * size) + fraction * swaps;
    if b - swaps * size >= swaps {
      MulMono(fraction, swaps * size + swaps, b);
    }
  }

  lemma Over(swaps: nat, fraction: nat, m: nat, size: nat)
    requires fraction >= 1 && (swaps * fraction) * size > m
    ensures swaps * size > m / fraction
  {
    DivBounds(m, fraction);
    assert fraction * (swaps * size) == (swaps * fraction) * size;
    if swaps * size <= m / fraction {
      MulMono(fraction, swaps * size, m / fraction);
    }
  }

  lemma Exceeds(p: nat, d: nat, size: nat, m: nat)
    requires p >= UNSIGNED && d == p % UNSIGNED && size >= 1 && m < d * size + d
    ensures p * size > m
  {
    MulMono(size, UNSIGNED + d, p);
    assert size * (UNSIGNED + d) == size * UNSIGNED + size * d;
    MulMono(UNSIGNED, 1, size);
  }
}
