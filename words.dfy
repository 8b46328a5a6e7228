/**
 * Fixed-width machine words as used by the ELF note walk: 32-bit fields in
 * the file's byte order (`binary.ByteOrder.Uint32`), Go's bit-clear operator
 * `&^` on unsigned values, and the two roundings built from it.
 */
module Words {
  import opened Types

  datatype ByteOrder = LittleEndian | BigEndian

  /** `order.Uint32(b[at:at+4])`: the four bytes of `b` from `at` on as an unsigned word. */
  function DecodeUint32(order: ByteOrder, b: seq<Byte>, at: nat): Uint32
    requires at + 4 <= |b|
  {
    var b0, b1, b2, b3: int := b[at], b[at + 1], b[at + 2], b[at + 3];
    match order
    case LittleEndian => b0 + 256 * (b1 + 256 * (b2 + 256 * b3))
    case BigEndian => b3 + 256 * (b2 + 256 * (b1 + 256 * b0))
  }

  /** `order.PutUint32`: the four bytes that store `x`. */
  function EncodeUint32(order: ByteOrder, x: Uint32): (b: seq<Byte>)
    ensures |b| == 4
  {
    var x1 := x / 256;
    var x2 := x1 / 256;
    var x3 := x2 / 256;
    match order
    case LittleEndian => [x % 256, x1 % 256, x2 % 256, x3]
    case BigEndian => [x3, x2 % 256, x1 % 256, x % 256]
  }

  /** Decoding the bytes written by EncodeUint32 gives the word back, whatever surrounds them. */
  lemma DecodeEncodeUint32(order: ByteOrder, x: Uint32, before: seq<Byte>, after: seq<Byte>)
    ensures DecodeUint32(order, before + EncodeUint32(order, x) + after, |before|) == x
  {
    var e := EncodeUint32(order, x);
    var b := before + e + after;
    assert b[|before|..|before| + 4] == e;
    var x1 := x / 256;
    var x2 := x1 / 256;
    var x3 := x2 / 256;
    assert x == x % 256 + 256 * x1;
    assert x1 == x1 % 256 + 256 * x2;
    assert x2 == x2 % 256 + 256 * x3;
  }

  /** Go's `a + b` on uint32 operands. */
  function Add32(a: Uint32, b: Uint32): (r: Uint32)
    ensures r == if a + b < UINT32_LIMIT then a + b else a + b - UINT32_LIMIT
  {
    ModWrap(a + b, UINT32_LIMIT);
    (a + b) % UINT32_LIMIT
  }

  /** Go's `a + b` on uint64 operands. */
  function Add64(a: Uint64, b: Uint64): (r: Uint64)
    ensures r == if a + b < UINT64_LIMIT then a + b else a + b - UINT64_LIMIT
  {
    ModWrap(a + b, UINT64_LIMIT);
    (a + b) % UINT64_LIMIT
  }

  /** Go's `a - b` on uint64 operands. */
  function Sub64(a: Uint64, b: Uint64): (r: Uint64)
    ensures r == if a >= b then a - b else a - b + UINT64_LIMIT
  {
    ModWrap(a - b + UINT64_LIMIT, UINT64_LIMIT);
    (a - b + UINT64_LIMIT) % UINT64_LIMIT
  }

  /** Go's conversion `uint32(n)` of a length: the word that differs from `n` by a multiple of 2^32. */
  function Trunc32(n: nat): (r: Uint32)
    ensures r <= n
    ensures (n - r) % UINT32_LIMIT == 0
    ensures n < UINT32_LIMIT ==> r == n
  {
    ModLe(n, UINT32_LIMIT);
    var q := n / UINT32_LIMIT;
    assert n == q * UINT32_LIMIT + n % UINT32_LIMIT;
    ModUnique(n - n % UINT32_LIMIT, UINT32_LIMIT, q, 0);
    n % UINT32_LIMIT
  }

  function Pow2(k: nat): (p: nat)
    ensures p >= 1
  {
    if k == 0 then 1 else 2 * Pow2(k - 1)
  }

  /** Go's `x &^ y` on non-negative integers: the bits of `x` that are clear in `y`. */
  function AndNot(x: nat, y: nat): (r: nat)
    ensures r <= x
    decreases x
  {
    if x == 0 then 0
    else 2 * AndNot(x / 2, y / 2) + (if x % 2 == 1 && y % 2 == 0 then 1 else 0)
  }

  lemma {:induction false} AndNotZero(x: nat)
    ensures AndNot(x, 0) == x
    decreases x
  {
    if x != 0 {
      AndNotZero(x / 2);
    }
  }

  /** Division with remainder determines quotient and remainder. */
  lemma ModUnique(x: nat, d: nat, q: nat, r: nat)
    requires 0 <= r < d && x == q * d + r
    ensures x % d == r && x / d == q
  {
    var q', r' := x / d, x % d;
    assert x == q' * d + r';
    if q' < q {
      MulStep(q', q, d);
    } else if q' > q {
      MulStep(q, q', d);
    }
  }

  lemma ModLe(n: nat, m: nat)
    requires m > 0
    ensures n % m <= n
    ensures n < m ==> n % m == n
  {
    var q := n / m;
    assert n == q * m + n % m;
    assert q * m >= 0;
    if n < m {
      ModUnique(n, m, 0, n);
    }
  }

  /** A value below twice the modulus wraps at most once. */
  lemma ModWrap(x: int, m: int)
    requires 0 <= x < 2 * m
    ensures x % m == if x < m then x else x - m
  {
    if x < m {
      ModUnique(x, m, 0, x);
    } else {
      ModUnique(x, m, 1, x - m);
    }
  }

  /** A larger multiplier adds at least one more `d`. */
  lemma MulStep(a: nat, b: nat, d: nat)
    requires a < b
    ensures a * d + d <= b * d
  {
    var c := b - a - 1;
    assert b * d == (a + 1 + c) * d;
    assert (a + 1 + c) * d == a * d + d + c * d;
  }

  lemma ModDouble(x: nat, p: nat)
    requires p >= 1
    ensures x % (2 * p) == 2 * ((x / 2) % p) + x % 2
  {
    var h := x / 2;
    var q, r := h / p, h % p;
    assert h == q * p + r;
    assert x == q * (2 * p) + (2 * r + x % 2);
    ModUnique(x, 2 * p, q, 2 * r + x % 2);
  }

  /** Dropping the last bit of `2a + b` and then `k` more is dropping `k` bits of `a`. */
  lemma DivHalf(a: nat, b: nat, p: nat)
    requires b < 2 && p >= 1
    ensures (2 * a + b) / (2 * p) == a / p
  {
    var q, r := a / p, a % p;
    assert a == q * p + r;
    assert 2 * a + b == q * (2 * p) + (2 * r + b);
    ModUnique(2 * a + b, 2 * p, q, 2 * r + b);
  }

  /** Dropping one bit and then `k` more is dropping `k + 1` bits. */
  lemma DivStep(x: nat, p: nat)
    requires p >= 1
    ensures x / (2 * p) == (x / 2) / p
  {
    assert x == 2 * (x / 2) + x % 2;
    DivHalf(x / 2, x % 2, p);
  }

  /** Bit `k` of `x &^ y` is set exactly when bit `k` of `x` is set and bit `k` of `y` is clear. */
  lemma {:induction false} AndNotBit(x: nat, y: nat, k: nat)
    ensures (AndNot(x, y) / Pow2(k)) % 2 == if (x / Pow2(k)) % 2 == 1 && (y / Pow2(k)) % 2 == 0 then 1 else 0
    decreases k
  {
    var z := AndNot(x, y);
    if x == 0 {
      assert z == 0;
      ModUnique(0, Pow2(k), 0, 0);
    } else if k == 0 {
      ModUnique(x, 1, x, 0);
      ModUnique(y, 1, y, 0);
      ModUnique(z, 1, z, 0);
    } else {
      var a, b := AndNot(x / 2, y / 2), if x % 2 == 1 && y % 2 == 0 then 1 else 0;
      assert z == 2 * a + b;
      var p := Pow2(k - 1);
      assert Pow2(k) == 2 * p;
      AndNotBit(x / 2, y / 2, k - 1);
      DivHalf(a, b, p);
      DivStep(x, p);
      DivStep(y, p);
    }
  }

  /** Clearing the low `k` bits rounds down to a multiple of 2^k. */
  lemma {:induction false} AndNotLowMask(x: nat, k: nat)
    ensures AndNot(x, Pow2(k) - 1) == x - x % Pow2(k)
    decreases x
  {
    if k == 0 {
      AndNotZero(x);
    } else if x != 0 {
      var p := Pow2(k - 1);
      var y := Pow2(k) - 1;
      assert y % 2 == 1 && y / 2 == p - 1;
      AndNotLowMask(x / 2, k - 1);
      assert AndNot(x, y) == 2 * (x / 2 - (x / 2) % p);
      ModDouble(x, p);
    }
  }

  /** `(n + 3) &^ 3` evaluated in uint32: `n` rounded up to a multiple of 4, wrapping to 0 near 2^32. */
  function Align4(n: Uint32): (r: Uint32)
    ensures r % 4 == 0
    ensures n + 3 < UINT32_LIMIT ==> n <= r < n + 4
    ensures n + 3 >= UINT32_LIMIT ==> r == 0
  {
    var m := (n + 3) % UINT32_LIMIT;
    RoundDown4(m);
    Align4Arith(n, m, AndNot(m, 3));
    AndNot(m, 3)
  }

  lemma Align4Arith(n: Uint32, m: int, r: int)
    requires m == (n + 3) % UINT32_LIMIT && r == m - m % 4
    ensures r % 4 == 0
    ensures n + 3 < UINT32_LIMIT ==> n <= r < n + 4
    ensures n + 3 >= UINT32_LIMIT ==> r == 0
  {
    if n + 3 < UINT32_LIMIT {
      assert m == n + 3;
    } else {
      assert m == n + 3 - UINT32_LIMIT;
    }
  }

  lemma RoundDown4(m: nat)
    ensures AndNot(m, 3) == m - m % 4
  {
    assert Pow2(2) == 4 by {
      assert Pow2(1) == 2;
    }
    AndNotLowMask(m, 2);
  }

  /**
   * `(off + align - 1) &^ (align - 1)` evaluated in uint64. For a power of
   * two this is `off` rounded up to a multiple of `align`; for other values it
   * is whatever the bit operation gives.
   */
  function AlignUp(off: Uint64, align: Uint64): (r: Uint64)
    requires align != 0
  {
    AndNot(Add64(off, align - 1), align - 1)
  }

  /** For a power-of-two alignment and no wrap-around, AlignUp rounds up to the next multiple. */
  lemma AlignUpPow2(off: Uint64, k: nat)
    requires Pow2(k) < UINT64_LIMIT
    requires off + Pow2(k) - 1 < UINT64_LIMIT
    ensures AlignUp(off, Pow2(k)) % Pow2(k) == 0
    ensures off <= AlignUp(off, Pow2(k)) < off + Pow2(k)
    ensures off % Pow2(k) == 0 ==> AlignUp(off, Pow2(k)) == off
  {
    var a := Pow2(k);
    var s := off + a - 1;
    calc {
      AlignUp(off, a);
      AndNot(Add64(off, a - 1), a - 1);
      AndNot(s, a - 1);
      { AndNotLowMask(s, k); }
      s - s % a;
    }
    RoundUpArith(off, a, s - s % a);
  }

  /** `a` is 1, 2, 4, 8, …: the alignments for which AlignUp rounds up. */
  predicate PowerOfTwo(a: nat)
    decreases a
  {
    a == 1 || (a >= 2 && a % 2 == 0 && PowerOfTwo(a / 2))
  }

  /** The exponent of a power of two. */
  function Log2(a: nat): (k: nat)
    requires PowerOfTwo(a)
    ensures Pow2(k) == a
    decreases a
  {
    if a == 1 then 0 else 1 + Log2(a / 2)
  }

  /** Every Pow2 is a power of two. */
  lemma {:induction false} Pow2PowerOfTwo(k: nat)
    ensures PowerOfTwo(Pow2(k))
  {
    if k > 0 {
      Pow2PowerOfTwo(k - 1);
      assert Pow2(k) / 2 == Pow2(k - 1);
    }
  }

  /** `n` modulo `a`, by repeated subtraction. */
  function Remainder(n: nat, a: nat): (r: nat)
    requires a != 0
    ensures r < a
    decreases n
  {
    if n < a then n else Remainder(n - a, a)
  }

  /** Remainder is Dafny's `%` on non-negative operands. */
  lemma {:induction false} RemainderMod(n: nat, a: nat)
    requires a != 0
    ensures Remainder(n, a) == n % a
    decreases n
  {
    if n < a {
      ModUnique(n, a, 0, n);
    } else {
      RemainderMod(n - a, a);
      var q := (n - a) / a;
      assert n - a == q * a + (n - a) % a;
      ModUnique(n, a, q + 1, (n - a) % a);
    }
  }

  /** The zero bytes that bring `n` up to the next multiple of `a`; none without an alignment. */
  function Pad(n: nat, a: nat): (p: nat)
    ensures a == 0 ==> p == 0
    ensures a != 0 ==> p < a
  {
    if a == 0 || Remainder(n, a) == 0 then 0 else a - Remainder(n, a)
  }

  /** The padding does bring `n` to a multiple of `a`. */
  lemma PadAligns(n: nat, a: nat)
    requires a != 0
    ensures (n + Pad(n, a)) % a == 0
  {
    RemainderMod(n, a);
    var q := n / a;
    assert n == q * a + n % a;
    if n % a == 0 {
      ModUnique(n, a, q, 0);
    } else {
      ModUnique(n + (a - n % a), a, q + 1, 0);
    }
  }

  /** Pad is the only amount below `a` that brings `n` to a multiple of `a`. */
  lemma PadUnique(n: nat, a: nat, p: nat)
    requires a != 0 && p < a && (n + p) % a == 0
    ensures p == Pad(n, a)
  {
    RemainderMod(n, a);
    var q, r := n / a, n % a;
    assert n == q * a + r;
    if r + p < a {
      ModUnique(n + p, a, q, r + p);
    } else {
      assert n + p == (q + 1) * a + (r + p - a);
      ModUnique(n + p, a, q + 1, r + p - a);
    }
  }

  /** For a power-of-two alignment and no wrap-around, AlignUp adds exactly the padding. */
  lemma AlignUpPad(n: Uint64, a: Uint64)
    requires PowerOfTwo(a) && n + a - 1 < UINT64_LIMIT
    ensures AlignUp(n, a) == n + Pad(n, a)
  {
    var k := Log2(a);
    AlignUpPow2(n, k);
    PadUnique(n, a, AlignUp(n, a) - n);
  }

  lemma RoundUpArith(off: nat, a: nat, r: int)
    requires a >= 1 && r == (off + a - 1) - (off + a - 1) % a
    ensures r % a == 0 && off <= r < off + a
    ensures off % a == 0 ==> r == off
  {
    var s := off + a - 1;
    var q := s / a;
    assert s == q * a + s % a;
    assert r == q * a;
    ModUnique(q * a, a, q, 0);
    if off % a == 0 {
      var j := off / a;
      assert off == j * a + 0;
      assert s == j * a + (a - 1);
      ModUnique(s, a, j, a - 1);
    }
  }
}
