/**
 Machine words of the 32-bit ARM target: `unsigned long` and `uint32_t` are
 32-bit and wrap modulo 2^32, `Integer32` is a signed 32-bit value, integer
 division truncates toward zero, and the flag word is addressed bit by bit
 through the bit-band alias (`HWREGBITW`).
 */
module Word {

  const MOD32: int := 0x1_0000_0000

  /** An `unsigned long` / `uint32_t` value. */
  type U32 = x: int | 0 <= x < MOD32

  /** An `Integer32` (`int32_t`) value. */
  type I32 = x: int | -0x8000_0000 <= x < 0x8000_0000

  /** The result of storing the mathematical value `x` in an unsigned 32-bit
      variable: the unique word congruent to `x` modulo 2^32. */
  function Wrap(x: int): (r: U32)
    ensures 0 <= x < MOD32 ==> r == x
    ensures (x - r) % MOD32 == 0
  {
    x % MOD32
  }

  /** Two values congruent to a third modulo 2^32 are congruent to each other. */
  lemma CongruentTrans(a: int, b: int, c: int)
    requires (a - b) % MOD32 == 0 && (b - c) % MOD32 == 0
    ensures (a - c) % MOD32 == 0
  {
    var i := (a - b) / MOD32;
    var j := (b - c) / MOD32;
    assert a - c == (i + j) * MOD32;
  }

  /** Two words congruent modulo 2^32 are equal. */
  lemma CongruentWords(a: int, b: int)
    requires 0 <= a < MOD32 && 0 <= b < MOD32
    requires (a - b) % MOD32 == 0
    ensures a == b
  {
  }

  /** Storing a value twice, with a subtraction in between, loses nothing
      modulo 2^32. */
  lemma WrapSub(x: int, y: int)
    ensures (Wrap(Wrap(x) - y) - (x - y)) % MOD32 == 0
  {
    CongruentTrans(Wrap(Wrap(x) - y), Wrap(x) - y, x - y);
  }

  /** Storing an intermediate sum does not change the stored total. */
  lemma WrapAdd(x: int, y: int)
    ensures Wrap(Wrap(x) + y) == Wrap(x + y)
  {
    WrapSub(x, -y);
    CongruentTrans(Wrap(Wrap(x) + y), x + y, Wrap(x + y));
    CongruentWords(Wrap(Wrap(x) + y), Wrap(x + y));
  }

  /** Unsigned division and remainder rebuild the dividend. */
  lemma DivMod(x: nat, d: nat)
    requires d > 0
    ensures (x / d) * d + x % d == x
    ensures x % d < d
  {
  }

  lemma MulAtLeast(a: int, d: int)
    requires a >= 1 && d > 0
    ensures a * d >= d
  {
    var b := a - 1;
    assert a * d == b * d + d;
    assert b * d >= 0;
  }

  lemma MulSub(a: int, b: int, d: int)
    ensures a * d - b * d == (a - b) * d
  {
  }

  /** Euclidean division is unique: a quotient and a remainder in range that
      rebuild `x` are `x / d` and `x % d`. */
  lemma DivModUnique(x: int, d: int, q: int, r: int)
    requires d > 0 && 0 <= r < d && x == q * d + r
    ensures x % d == r && x / d == q
  {
    var q0, r0 := x / d, x % d;
    assert x == q0 * d + r0;
    MulSub(q0, q, d);
    MulSub(q, q0, d);
    if q0 > q {
      MulAtLeast(q0 - q, d);
    } else if q0 < q {
      MulAtLeast(q - q0, d);
    }
  }

  lemma ModSmall(x: int, d: int)
    requires 0 <= x < d
    ensures x % d == x
  {
    DivModUnique(x, d, 0, x);
  }

  lemma ModShift(x: int, d: int)
    requires d > 0
    ensures (x + d) % d == x % d
  {
    DivModUnique(x + d, d, x / d + 1, x % d);
  }

  /** Adding whole multiples of the modulus does not change the remainder. */
  lemma ModMultiple(q: int, y: int, d: int)
    requires d > 0
    ensures (q * d + y) % d == y % d
  {
    var p := y / d;
    assert q * d + y == (q + p) * d + y % d by {
      MulSub(q + p, p, d);
    }
    DivModUnique(q * d + y, d, q + p, y % d);
  }

  /** Multiplying two values congruent modulo 2^32 by the same factor keeps
      them congruent. */
  lemma CongruentScale(a: int, b: int, c: int)
    requires (a - b) % MOD32 == 0
    ensures (a * c - b * c) % MOD32 == 0
  {
    var q := (a - b) / MOD32;
    assert a - b == q * MOD32;
    MulSub(a, b, c);
    assert a * c - b * c == (q * c) * MOD32 + 0;
    ModMultiple(q * c, 0, MOD32);
  }

  /** A multiply-add computed with every intermediate stored in a word is
      congruent to the mathematical result. */
  lemma WrapMulAdd(n: int, d: int, c: int)
    ensures (Wrap(n + Wrap(Wrap(d) * c)) - (n + d * c)) % MOD32 == 0
  {
    var frac := Wrap(Wrap(d) * c);
    CongruentScale(Wrap(d), d, c);
    CongruentTrans(frac, Wrap(d) * c, d * c);
    assert (n + frac - (n + d * c)) % MOD32 == 0;
    CongruentTrans(Wrap(n + frac), n + frac, n + d * c);
  }

  /** C's `/` on signed operands: the quotient truncated toward zero. */
  function CDiv(a: int, b: int): (q: int)
    requires b > 0
    ensures a >= 0 ==> 0 <= a - q * b < b
    ensures a < 0 ==> -b < a - q * b <= 0
  {
    if a >= 0 then a / b else -((-a) / b)
  }

  /** Truncation toward zero is symmetric about zero, unlike Euclidean division. */
  lemma CDivOdd(a: int, b: int)
    requires b > 0
    ensures CDiv(-a, b) == -CDiv(a, b)
  {
  }

  /** A flag word, seen as the set of the bit positions that are set. */
  type Flags = w: set<nat> | forall b :: b in w ==> b < 32

  /** Reading bit `n` of a flag word through the bit-band alias. */
  predicate TestBit(w: Flags, n: nat)
  {
    n in w
  }

  /** `HWREGBITW(&w, n) = 1`: bit `n` becomes set, every other bit keeps its value. */
  function SetBit(w: Flags, n: nat): (r: Flags)
    requires n < 32
    ensures TestBit(r, n)
    ensures forall m: nat :: m != n ==> (TestBit(r, m) <==> TestBit(w, m))
  {
    w + {n}
  }

  /** `HWREGBITW(&w, n) = 0`: bit `n` becomes clear, every other bit keeps its value. */
  function ClearBit(w: Flags, n: nat): (r: Flags)
    ensures !TestBit(r, n)
    ensures forall m: nat :: m != n ==> (TestBit(r, m) <==> TestBit(w, m))
  {
    w - {n}
  }
}
