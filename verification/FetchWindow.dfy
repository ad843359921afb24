// The chunk of the file that is fetched for an offset: it starts at the offset rounded down to a block, and
// its length is a common multiple of the entry size and the block size. Sizes here are in bytes.
module FetchWindow {
  import opened Logs
  import opened Products

  ghost predicate Divides(d: nat, n: nat) {
    exists q: nat :: n == Times(q, d)
  }

  function Times(q: nat, d: nat): (n: nat) {
    q * d
  }

  // ----- The buffer length -----

  function Gcd(a: nat, b: nat): (g: nat)
    requires a > 0
    ensures g > 0
    decreases b
  {
    if b == 0 then a else Gcd(b, a % b)
  }

  lemma {:induction false} GcdDivides(a: nat, b: nat)
    requires a > 0
    ensures Divides(Gcd(a, b), a) && Divides(Gcd(a, b), b)
    decreases b
  {
    var g := Gcd(a, b);
    if b == 0 {
      assert a == Times(1, g) && b == Times(0, g);
    } else {
      GcdDivides(b, a % b);
      DividesDividend(g, a, b);
    }
  }

  lemma DividesDividend(g: nat, a: nat, b: nat)
    requires b > 0 && Divides(g, b) && Divides(g, a % b)
    ensures Divides(g, a)
  {
    Quotient(a, b);
    DividesCombination(g, a, a / b, b, a % b);
  }

  lemma DividesCombination(g: nat, a: nat, q: nat, b: nat, r: nat)
    requires Divides(g, b) && Divides(g, r) && a == q * b + r
    ensures Divides(g, a)
  {
    var x: nat :| b == Times(x, g);
    var y: nat :| r == Times(y, g);
    Associate(q, x, g);
    Distribute(q * x, y, g);
    assert a == Times(q * x + y, g);
  }

  lemma Associate(a: nat, b: nat, c: nat)
    ensures a * (b * c) == (a * b) * c
  {
  }

  function Lcm(a: nat, b: nat): (n: nat)
    requires a > 0
  {
    a / Gcd(a, b) * b
  }

  lemma LcmIsCommonMultiple(a: nat, b: nat)
    requires a > 0 && b > 0
    ensures Divides(a, Lcm(a, b)) && Divides(b, Lcm(a, b)) && Lcm(a, b) > 0
  {
    var g := Gcd(a, b);
    GcdDivides(a, b);
    var x: nat :| a == Times(x, g);
    var y: nat :| b == Times(y, g);
    QuotientOf(g, x, 0);
    Associate(x, g, y);
    assert x * b == (x * g) * y;
    assert Lcm(a, b) == Times(x, b) == Times(y, a);
    ProductStep(b, 0, x);
  }

  // ----- No shorter common multiple -----

  lemma Spread(a: int, b: int, c: int)
    ensures (a + b) * c == a * c + b * c && (a - b) * c == a * c - b * c
  {
  }

  lemma Regrouped(a: int, b: int, c: int)
    ensures (a * b) * c == a * (b * c) == b * (a * c)
  {
  }

  /** The greatest common divisor is a combination of the two numbers. */
  lemma {:induction false} Bezout(a: nat, b: nat) returns (u: int, v: int)
    requires a > 0
    ensures u * a + v * b == Gcd(a, b)
    decreases b
  {
    if b == 0 {
      u, v := 1, 0;
    } else {
      var u', v' := Bezout(b, a % b);
      Quotient(a, b);
      BezoutStep(a, b, a / b, a % b, u', v');
      u, v := v', u' - v' * (a / b);
    }
  }

  lemma BezoutStep(a: int, b: int, q: int, r: int, u: int, v: int)
    requires a == q * b + r
    ensures v * a + (u - v * q) * b == u * b + v * r
  {
    Spread(q * b, r, v);
    Spread(u, v * q, b);
    Regrouped(v, q, b);
  }

  /** Multiples of d combine to multiples of d. */
  lemma CombinedMultiple(d: int, x: int, y: int, u: int, v: int)
    ensures u * (x * d) + v * (y * d) == (u * x + v * y) * d
  {
    Regrouped(u, x, d);
    Regrouped(v, y, d);
    Spread(u * x, v * y, d);
  }

  /** Every common divisor divides it. */
  lemma GcdIsGreatest(a: nat, b: nat, d: nat)
    requires a > 0 && d > 0 && Divides(d, a) && Divides(d, b)
    ensures Divides(d, Gcd(a, b)) && d <= Gcd(a, b)
  {
    var x: nat :| a == Times(x, d);
    var y: nat :| b == Times(y, d);
    var u, v := Bezout(a, b);
    var k := u * x + v * y;
    CombinedMultiple(d, x, y, u, v);
    SignOfFactor(k, d, Gcd(a, b));
    assert Gcd(a, b) == Times(k, d);
  }

  lemma SignOfFactor(k: int, d: nat, n: nat)
    requires n == k * d && n > 0
    ensures k >= 1 && d <= n
  {
    NotPositive(k, d);
    ProductStep(d, 0, if k > 0 then k else 0);
  }

  lemma NotPositive(k: int, d: nat)
    ensures k <= 0 ==> k * d <= 0
  {
  }

  /** And every common multiple is a multiple of Lcm: the buffer length is the shortest there is. */
  lemma LcmIsLeast(a: nat, b: nat, n: nat)
    requires a > 0 && b > 0 && Divides(a, n) && Divides(b, n)
    ensures Divides(Lcm(a, b), n) && (n > 0 ==> Lcm(a, b) <= n)
  {
    var x: nat :| n == Times(x, a);
    var y: nat :| n == Times(y, b);
    var g, l := Gcd(a, b), Lcm(a, b);
    var u, v := Bezout(a, b);
    var k := u * y + v * x;
    LcmTimesGcd(a, b);
    MultipleOfProduct(a, b, n, x, y, u, v);
    Regrouped(k, l, g);
    CancelGcd(n, k * l, g);
    LcmIsCommonMultiple(a, b);
    if n > 0 {
      SignOfFactor(k, l, n);
      assert n == Times(k, l);
    } else {
      assert n == Times(0, l);
    }
  }

  lemma LcmTimesGcd(a: nat, b: nat)
    requires a > 0
    ensures Lcm(a, b) * Gcd(a, b) == a * b
  {
    var g := Gcd(a, b);
    GcdDivides(a, b);
    var x: nat :| a == Times(x, g);
    QuotientOf(g, x, 0);
    Regrouped(x, b, g);
    assert x * (b * g) == b * (x * g);
  }

  lemma MultipleOfProduct(a: int, b: int, n: int, x: int, y: int, u: int, v: int)
    requires n == x * a && n == y * b
    ensures n * (u * a + v * b) == (u * y + v * x) * (a * b)
  {
    assert n * (u * a) == u * (y * (a * b)) by {
      Regrouped(n, u, a);
      Regrouped(y, b, a);
    }
    assert n * (v * b) == v * (x * (a * b)) by {
      Regrouped(n, v, b);
      Regrouped(x, a, b);
    }
    CombinedMultiple(a * b, y, x, u, v);
    Spread(u * a, v * b, n);
  }

  lemma CancelGcd(n: int, m: int, g: nat)
    requires g > 0 && n * g == m * g
    ensures n == m
  {
    Spread(n, m, g);
    if n > m {
      ProductStep(g, 0, n - m);
    } else if n < m {
      Spread(m, n, g);
      ProductStep(g, 0, m - n);
    }
  }

  lemma DividesTrans(a: nat, b: nat, c: nat)
    requires Divides(a, b) && Divides(b, c)
    ensures Divides(a, c)
  {
    var x: nat :| b == Times(x, a);
    var y: nat :| c == Times(y, b);
    Associate(y, x, a);
    assert c == Times(y * x, a);
  }

  /** fair_aligned_sstable_page_cache_buffer_size. */
  function BufferLength(fair: nat, entry: nat, block: nat): (n: nat)
    requires fair > 0 && entry > 0 && block > 0
    ensures n > 0 && Divides(entry, n) && Divides(block, n)
  {
    LcmIsCommonMultiple(fair, entry);
    LcmIsCommonMultiple(Lcm(fair, entry), block);
    DividesTrans(entry, Lcm(fair, entry), Lcm(Lcm(fair, entry), block));
    Lcm(Lcm(fair, entry), block)
  }

  /** It is the shortest length that is a multiple of all three sizes. */
  lemma BufferLengthIsLeast(fair: nat, entry: nat, block: nat, n: nat)
    requires fair > 0 && entry > 0 && block > 0 && Divides(fair, n) && Divides(entry, n) && Divides(block, n)
    ensures Divides(fair, BufferLength(fair, entry, block))
    ensures Divides(BufferLength(fair, entry, block), n) && (n > 0 ==> BufferLength(fair, entry, block) <= n)
  {
    LcmIsCommonMultiple(fair, entry);
    LcmIsCommonMultiple(Lcm(fair, entry), block);
    DividesTrans(fair, Lcm(fair, entry), Lcm(Lcm(fair, entry), block));
    LcmIsLeast(fair, entry, n);
    LcmIsLeast(Lcm(fair, entry), block, n);
  }

  // ----- The window -----

  function RoundDown(i: nat, block: nat): (left: nat)
    requires block > 0
  {
    i - i % block
  }

  lemma RoundDownFacts(i: nat, block: nat)
    requires block > 0
    ensures RoundDown(i, block) == Times(i / block, block) <= i < RoundDown(i, block) + block
  {
    Quotient(i, block);
  }

  /** Two multiples of d, the first below the second: a whole d fits between them. */
  lemma MultipleGap(d: nat, a: nat, b: nat)
    requires Divides(d, a) && Divides(d, b) && a < b
    ensures a + d <= b
  {
    var x: nat :| a == Times(x, d);
    var y: nat :| b == Times(y, d);
    if y <= x {
      ProductStep(d, y, x);
    } else {
      ProductStep(d, x, y);
      Distribute(x, 1, d);
    }
  }

  lemma DividesSum(d: nat, a: nat, b: nat)
    requires Divides(d, a) && Divides(d, b)
    ensures Divides(d, a + b)
  {
    var x: nat :| a == Times(x, d);
    var y: nat :| b == Times(y, d);
    Distribute(x, y, d);
    assert a + b == Times(x + y, d);
  }

  lemma PositiveMultiple(d: nat, n: nat)
    requires Divides(d, n) && n > 0
    ensures n == d || d + d <= n
  {
    var q: nat :| n == Times(q, d);
    if q >= 2 {
      ProductStep(d, 2, q);
    }
  }

  /**
   * The window that starts at an entry's offset rounded down to a block, and is as long as any positive
   * common multiple of the two sizes, holds the whole entry.
   */
  lemma WindowHoldsEntry(entry: nat, block: nat, length: nat, offset: nat)
    requires entry > 0 && block > 0 && length > 0
    requires Divides(entry, length) && Divides(block, length) && Divides(entry, offset)
    ensures RoundDown(offset, block) <= offset && offset + entry <= RoundDown(offset, block) + length
  {
    RoundDownFacts(offset, block);
    assert Divides(block, RoundDown(offset, block));
    WindowFrom(entry, block, length, offset, RoundDown(offset, block));
  }

  lemma WindowFrom(entry: nat, block: nat, length: nat, offset: nat, left: nat)
    requires length > 0 && Divides(entry, length) && Divides(block, length) && Divides(entry, offset)
    requires Divides(block, left) && left <= offset < left + block
    ensures offset + entry <= left + length
  {
    PositiveMultiple(entry, length);
    PositiveMultiple(block, length);
    if length == entry {
      // a block divides an entry, so the offset is itself a multiple of the block
      DividesTrans(block, entry, offset);
      if left < offset {
        MultipleGap(block, left, offset);
      }
    } else if length == block {
      // an entry divides a block, so both ends of the window are multiples of an entry
      DividesTrans(entry, block, left);
      DividesSum(entry, left, length);
      MultipleGap(entry, offset, left + length);
    }
  }

  /** In particular with the length the source computes, whatever the fair buffer size. */
  lemma FetchHoldsEntry(fair: nat, entry: nat, block: nat, index: nat)
    requires fair > 0 && entry > 0 && block > 0
    ensures var left := RoundDown(index * entry, block);
            left <= index * entry && index * entry + entry <= left + BufferLength(fair, entry, block)
  {
    assert index * entry == Times(index, entry);
    WindowHoldsEntry(entry, block, BufferLength(fair, entry, block), index * entry);
  }

  /**
   * A window never starts inside an entry, for all entries, exactly when one size divides the other. The
   * in-memory descent needs this: it addresses entries from the start of the window.
   */
  lemma WindowsStartAtEntriesExactly(entry: nat, block: nat)
    requires entry > 0 && block > 0
    ensures (forall index: nat :: Divides(entry, RoundDown(Times(index, entry), block)))
            <==> Divides(entry, block) || Divides(block, entry)
  {
    if Divides(entry, block) || Divides(block, entry) {
      forall index: nat ensures Divides(entry, RoundDown(Times(index, entry), block)) {
        StartIsAligned(entry, block, index);
      }
    } else {
      var index := StartInsideEntry(entry, block);
    }
  }

  lemma StartIsAligned(entry: nat, block: nat, index: nat)
    requires entry > 0 && block > 0 && (Divides(entry, block) || Divides(block, entry))
    ensures Divides(entry, RoundDown(Times(index, entry), block))
  {
    var offset := Times(index, entry);
    var left := RoundDown(offset, block);
    RoundDownFacts(offset, block);
    assert Divides(block, left) && Divides(entry, offset);
    if Divides(entry, block) {
      DividesTrans(entry, block, left);
    } else {
      DividesTrans(block, entry, offset);
      if left < offset {
        MultipleGap(block, left, offset);
      }
    }
  }

  /** The entry whose window starts inside another entry: the first one at or after the first block boundary. */
  lemma StartInsideEntry(entry: nat, block: nat) returns (index: nat)
    requires entry > 0 && block > 0 && !Divides(entry, block) && !Divides(block, entry)
    ensures !Divides(entry, RoundDown(Times(index, entry), block))
  {
    if entry < block {
      index := block / entry + 1;
      var offset := Times(index, entry);
      Quotient(block, entry);
      Distribute(block / entry, 1, entry);
      assert block < offset <= block + entry;
      QuotientOf(block, 1, offset - block);
    } else {
      index := 1;
      RoundDownFacts(entry, block);
      var left := RoundDown(entry, block);
      assert Divides(block, left) && left != entry;
      assert left > 0;
      if Divides(entry, left) {
        PositiveMultiple(entry, left);
      }
    }
  }

  // ----- The rounding as written -----

  /** Bitwise and. */
  function And(a: nat, b: nat): (c: nat) {
    if a == 0 || b == 0 then 0 else 2 * And(a / 2, b / 2) + (if a % 2 == 1 && b % 2 == 1 then 1 else 0)
  }

  lemma AndBits(a: nat, b: nat, p: nat, q: nat, x: nat, y: nat)
    requires a == 2 * p + x && b == 2 * q + y && x <= 1 && y <= 1
    ensures And(a, b) == 2 * And(p, q) + if x == 1 && y == 1 then 1 else 0
  {
    if a > 0 && b > 0 {
      assert a / 2 == p && b / 2 == q;
    }
  }

  lemma AndHalves(a: nat, k: nat)
    ensures And(a, 2 * k + 1) == 2 * And(a / 2, k) + a % 2
    ensures And(a, 2 * k) == 2 * And(a / 2, k)
  {
    AndBits(a, 2 * k + 1, a / 2, k, a % 2, 1);
    AndBits(a, 2 * k, a / 2, k, a % 2, 0);
  }

  /** The bits of a below m, a power of two. */
  function Low(a: nat, m: nat): (r: nat)
    requires m > 0
  {
    a % m
  }

  lemma LowHalves(a: nat, m: nat)
    requires m > 0
    ensures Low(a, 2 * m) == 2 * Low(a / 2, m) + a % 2
  {
    var q, r := a / 2 / m, a / 2 % m;
    Quotient(a / 2, m);
    assert a == 2 * (q * m + r) + a % 2;
    Associate(2, q, m);
    Associate(q, 2, m);
    assert a == q * (2 * m) + (2 * r + a % 2);
    QuotientOf(2 * m, q, 2 * r + a % 2);
  }

  lemma AndLowStep(a: nat, m: nat)
    requires m > 0 && And(a / 2, m - 1) == Low(a / 2, m)
    ensures And(a, 2 * m - 1) == Low(a, 2 * m)
  {
    AndHalves(a, m - 1);
    LowHalves(a, m);
  }

  lemma {:induction false} AndLowMask(a: nat, hi: nat)
    ensures And(a, Pow2(hi) - 1) == Low(a, Pow2(hi))
    decreases hi
  {
    if hi > 0 {
      AndLowMask(a / 2, hi - 1);
      AndLowStep(a, Pow2(hi - 1));
    }
  }

  lemma AndBandStep(a: nat, l: nat, m: nat)
    requires 0 < l <= m && And(a / 2, m - l) == Low(a / 2, m) - Low(a / 2, l)
    ensures And(a, 2 * m - 2 * l) == Low(a, 2 * m) - Low(a, 2 * l)
  {
    AndHalves(a, m - l);
    LowHalves(a, m);
    LowHalves(a, l);
  }

  lemma HalfBand(lo: nat, hi: nat) returns (l: nat, m: nat)
    requires 0 < lo <= hi
    ensures 0 < l <= m && l == Pow2(lo - 1) && m == Pow2(hi - 1) && Pow2(lo) == 2 * l && Pow2(hi) == 2 * m
  {
    l, m := Pow2(lo - 1), Pow2(hi - 1);
    Pow2Monotone(lo - 1, hi - 1);
  }

  /** Masking with the bits lo .. hi - 1 keeps exactly those bits. */
  lemma AndBandMask(a: nat, lo: nat, hi: nat)
    requires lo <= hi
    ensures Pow2(lo) <= Pow2(hi)
    ensures And(a, Pow2(hi) - Pow2(lo)) == Low(a, Pow2(hi)) - Low(a, Pow2(lo))
  {
    Pow2Monotone(lo, hi);
    AndBand(a, lo, hi, Pow2(lo), Pow2(hi));
  }

  lemma {:induction false} AndBand(a: nat, lo: nat, hi: nat, l: nat, m: nat)
    requires lo <= hi && l == Pow2(lo) <= m == Pow2(hi)
    ensures And(a, m - l) == Low(a, m) - Low(a, l)
    decreases lo
  {
    if lo == 0 {
      AndLowMask(a, hi);
    } else {
      var l', m' := HalfBand(lo, hi);
      AndBand(a / 2, lo - 1, hi - 1, l', m');
      AndBandStep(a, l', m');
    }
  }

  lemma SmallMod(a: nat, m: nat)
    requires a < m
    ensures a % m == a
  {
  }

  /**
   * round_to_block_size_multiple with the mask as written; p is the exponent of the block size, and the top
   * bit of the mask is bit `top` - 1 (the source has 63, for any file offset).
   */
  function RoundAsWritten(i: nat, p: nat, top: nat): (r: int)
    requires 1 <= p <= top
  {
    Pow2Monotone(p - 1, top);
    i - And(i, Pow2(top) - Pow2(p - 1))
  }

  /**
   * As written, an offset is replaced by its low p - 1 bits, so every fetch is from the first half block of
   * the file; that is the rounded offset exactly for the offsets 0 and half a block.
   */
  lemma RoundAsWrittenExactly(i: nat, p: nat, top: nat)
    requires 1 <= p <= top && i < Pow2(top)
    ensures RoundAsWritten(i, p, top) == i % Pow2(p - 1)
    ensures RoundAsWritten(i, p, top) == RoundDown(i, Pow2(p)) <==> i == 0 || i == Pow2(p - 1)
  {
    AndBandMask(i, p - 1, top);
    SmallMod(i, Pow2(top));
    LowBitsAreRounded(i, Pow2(p - 1));
  }

  lemma LowBitsAreRounded(i: nat, half: nat)
    requires half > 0
    ensures i % half == RoundDown(i, 2 * half) <==> i == 0 || i == half
  {
    if i < half {
      SmallMod(i, 2 * half);
      SmallMod(i, half);
    } else if i < 2 * half {
      SmallMod(i, 2 * half);
      QuotientOf(half, 1, i - half);
    } else {
      Quotient(i, half);
      BeyondFirst(i, 2 * half);
    }
  }

  lemma BeyondFirst(i: nat, block: nat)
    requires 0 < block <= i
    ensures RoundDown(i, block) >= block
  {
    RoundDownFacts(i, block);
    ProductStep(block, 1, i / block);
    ProductStep(block, 0, i / block);
  }
}
