/** Machine integers of the Go sources, written out over unbounded `int`: 64-bit words, two's
    complement conversion and wrap-around, shifts, and bitwise or.  `int` is taken to be 64 bits wide. */
module Integers {

  const TWO_31: int := 0x8000_0000
  const TWO_32: int := 0x1_0000_0000
  const TWO_63: int := 0x8000_0000_0000_0000
  const TWO_64: int := 0x1_0000_0000_0000_0000
  const MAX_INT: int := 0x7fff_ffff_ffff_ffff

  type byte = x: int | 0 <= x < 256
  type uint32 = x: int | 0 <= x < TWO_32
  type uint64 = x: int | 0 <= x < TWO_64
  type int64 = x: int | -TWO_63 <= x < TWO_63

  /** Go's `int(u)` and `int64(u)`. */
  function ToInt64(u: uint64): (i: int64)
    ensures i >= 0 <==> u < TWO_63
    ensures i == u || i == u - 0x1_0000_0000_0000_0000
  {
    if u < TWO_63 then u else u - TWO_64
  }

  /** Go's `uint64(i)`. */
  function ToUint64(i: int64): (u: uint64)
    ensures ToInt64(u) == i
  {
    if i >= 0 then i else i + TWO_64
  }

  /** Signed 64-bit addition with wrap-around. */
  function WrapAdd(a: int64, b: int64): (c: int64)
    ensures 0 <= a && 0 <= b ==> (c < 0 <==> a + b >= TWO_63)
    ensures -TWO_63 <= a + b < TWO_63 ==> c == a + b
    ensures c == a + b || c == a + b - 0x1_0000_0000_0000_0000 || c == a + b + 0x1_0000_0000_0000_0000
  {
    if a + b >= TWO_63 then a + b - TWO_64
    else if a + b < -TWO_63 then a + b + TWO_64
    else a + b
  }

  /** Go's `int32(u)`: the low 32 bits, read as two's complement. */
  function ToInt32(u: uint64): (i: int)
    ensures -TWO_31 <= i < TWO_31
    ensures (i - u) % TWO_32 == 0
  {
    var w := u % TWO_32;
    if w < TWO_31 then w else w - TWO_32
  }

  function Pow2(n: nat): (p: nat)
    ensures p > 0
  {
    if n == 0 then 1 else 2 * Pow2(n - 1)
  }

  lemma {:induction false} Pow2Add(a: nat, b: nat)
    ensures Pow2(a + b) == Pow2(a) * Pow2(b)
  {
    if a > 0 { Pow2Add(a - 1, b); }
  }

  lemma {:induction false} Pow2Monotone(a: nat, b: nat)
    requires a <= b
    ensures Pow2(a) <= Pow2(b)
  {
    if a < b { Pow2Monotone(a, b - 1); }
  }

  lemma Pow2Constants()
    ensures Pow2(7) == 128 && Pow2(63) == TWO_63 && Pow2(64) == TWO_64
  {
    assert Pow2(8) == 256;
    Pow2Add(8, 8);
    Pow2Add(16, 16);
    Pow2Add(32, 32);
  }

  lemma Pow63()
    ensures Pow2(63) == TWO_63
  {
    hide Pow2;
    Pow2Constants();
  }

  lemma DivUnique(m: nat, d: nat, q: nat, r: nat)
    requires d > 0 && r < d && m == q * d + r
    ensures m / d == q
  {
    var q', r' := m / d, m % d;
    assert m == q' * d + r';
    Multiples(q', q, d);
    Multiples(q, q', d);
  }

  lemma Multiples(a: nat, b: nat, d: nat)
    ensures a < b ==> a * d + d <= b * d
  {
    if a < b {
      var k: nat := b - a - 1;
      assert b * d == a * d + d + k * d;
    }
  }

  /** Go's `x << s` on a uint64. */
  function Shl64(x: uint64, s: nat): (r: uint64) {
    (x * Pow2(s)) % TWO_64
  }

  /** Go's `x | y` on unsigned words. */
  function BitOr(x: nat, y: nat): (r: nat)
    decreases x + y
  {
    if x == 0 && y == 0 then 0
    else (if x % 2 == 1 || y % 2 == 1 then 1 else 0) + 2 * BitOr(x / 2, y / 2)
  }

  lemma {:induction false} BitOrZero(x: nat)
    ensures BitOr(x, 0) == x && BitOr(0, x) == x
  {
    if x > 0 { BitOrZero(x / 2); }
  }

  lemma Pow2Unfold(k: nat)
    ensures Pow2(k) == if k == 0 then 1 else 2 * Pow2(k - 1)
  {
  }

  lemma Twice(y: nat, p: nat)
    ensures y * (2 * p) == 2 * (y * p)
  {
  }

  lemma BitOrEven(x: nat, z: nat)
    ensures BitOr(x, 2 * z) == x % 2 + 2 * BitOr(x / 2, z)
  {
  }

  /** Or-ing a word into bits the accumulator does not reach is addition. */
  lemma {:induction false} BitOrDisjoint(x: nat, y: nat, k: nat)
    requires x < Pow2(k)
    ensures BitOr(x, y * Pow2(k)) == x + y * Pow2(k)
  {
    hide Pow2, BitOr;
    if k == 0 {
      Pow2Unfold(0);
      BitOrZero(y);
    } else {
      Pow2Unfold(k);
      Twice(y, Pow2(k - 1));
      BitOrDisjoint(x / 2, y, k - 1);
      BitOrEven(x, y * Pow2(k - 1));
    }
  }

  /** Go's `bits.Len64`: the number of bits needed to write x. */
  function BitLen(x: nat): (n: nat) {
    if x == 0 then 0 else 1 + BitLen(x / 2)
  }

  lemma {:induction false} BitLenBounds(x: nat)
    requires x > 0
    ensures BitLen(x) > 0 && Pow2(BitLen(x) - 1) <= x < Pow2(BitLen(x))
  {
    if x > 1 { BitLenBounds(x / 2); }
  }
}
