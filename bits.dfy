/** Unsigned integer arithmetic as the C# instruction decoders use it: fixed-width
    integer types as bounded subsets of `int`, powers of two, the bitwise AND of
    two non-negative integers, and strings of binary digits with the value
    `Convert.ToUInt64(s, 2)` gives them. */
module Bits {

  const TWO_16: int := 0x1_0000
  const TWO_32: int := 0x1_0000_0000
  const TWO_64: int := 0x1_0000_0000_0000_0000

  /** C# `byte`, `ushort`, `uint` and `ulong`. */
  type byte = x: int | 0 <= x < 0x100
  type u16 = x: int | 0 <= x < 0x1_0000
  type u32 = x: int | 0 <= x < 0x1_0000_0000
  type u64 = x: int | 0 <= x < 0x1_0000_0000_0000_0000

  function Pow2(n: nat): (r: nat)
    ensures r >= 1
  {
    if n == 0 then 1 else 2 * Pow2(n - 1)
  }

  lemma {:induction false} Pow2Add(a: nat, b: nat)
    ensures Pow2(a + b) == Pow2(a) * Pow2(b)
  {
    if b > 0 {
      Pow2Add(a, b - 1);
      assert Pow2(a + b) == 2 * Pow2(a + b - 1);
    }
  }

  /** The powers of two up to a byte, and a page. */
  lemma Pow2Small()
    ensures Pow2(0) == 1 && Pow2(1) == 2 && Pow2(2) == 4 && Pow2(3) == 8 && Pow2(4) == 16
    ensures Pow2(5) == 32 && Pow2(6) == 64 && Pow2(7) == 128 && Pow2(8) == 256
    ensures Pow2(12) == 4096
  {
    var p4, p8 := Pow2(4), Pow2(8);
    assert p4 == 16 && p8 == 256;
    Pow2Add(8, 4);
  }

  /** The larger powers of two the A64 decoders' widths need. */
  lemma Pow2Large()
    ensures Pow2(20) == 0x10_0000 && Pow2(32) == 0x1_0000_0000
    ensures Pow2(44) == 0x1000_0000_0000 && Pow2(52) == 0x10_0000_0000_0000
    ensures Pow2(64) == TWO_64
  {
    Pow2Small();
    Pow2Add(12, 8);
    var p20 := Pow2(20);
    assert p20 == 0x10_0000;
    Pow2Add(20, 12);
    var p32 := Pow2(32);
    assert p32 == 0x1_0000_0000;
    Pow2Add(32, 12);
    var p44 := Pow2(44);
    assert p44 == 0x1000_0000_0000;
    Pow2Add(44, 8);
    var p52 := Pow2(52);
    assert p52 == 0x10_0000_0000_0000;
    Pow2Add(52, 12);
  }

  lemma MulAtLeast(a: int, d: int)
    requires a >= 1 && d > 0
    ensures a * d >= d
  {
  }

  lemma Twice(x: int, p: int)
    ensures 2 * (x * p) == x * (2 * p)
  {
  }

  /** Euclidean division is unique: a quotient and a remainder in range are the ones `/` and `%` give. */
  lemma DivModUnique(n: int, d: int, q: int, r: int)
    requires d > 0 && 0 <= r < d && n == q * d + r
    ensures n / d == q && n % d == r
  {
    var q0, r0 := n / d, n % d;
    assert q0 * d + r0 == q * d + r;
    if q0 > q {
      MulAtLeast(q0 - q, d);
    } else if q0 < q {
      MulAtLeast(q - q0, d);
    }
  }

  /** The quotient of two naturals is a natural no larger than the dividend. */
  lemma DivBounds(a: nat, d: int)
    requires d > 0
    ensures 0 <= a / d <= a
  {
    var q := a / d;
    assert a == q * d + a % d;
    if q < 0 {
      MulAtLeast(-q, d);
    } else if q > a {
      MulAtLeast(d, q);
    }
  }

  /** A quotient below a bound: `a < d * m` gives `a / d < m`. */
  lemma DivBelow(a: nat, d: nat, m: nat)
    requires d > 0 && a < d * m
    ensures a / d < m
  {
    var q := a / d;
    assert a == q * d + a % d;
    if q >= m {
      MulAtLeast(d, q - m + 1);
    }
  }

  /** Multiplying out `p * (q * y + r)`. */
  lemma MulOut(p: int, q: int, y: int, r: int)
    ensures p * (q * y + r) == y * (p * q) + p * r
  {
    assert p * (q * y) == y * (p * q);
  }

  /** Multiplication by a natural is monotone. */
  lemma MulMonotone(p: nat, a: nat, b: nat)
    requires a <= b
    ensures p * a <= p * b
  {
    var d: nat := b - a;
    assert p * b == p * a + p * d;
  }

  /** A remainder scaled by `p` stays below the next multiple of `p`. */
  lemma ScaledRemainder(p: nat, q: nat, r2: nat, r1: nat)
    requires r2 < q && r1 < p
    ensures p * r2 + r1 < p * q
  {
    assert p * (r2 + 1) == p * r2 + p;
    MulMonotone(p, r2 + 1, q);
  }

  /** Dividing twice is dividing once by the product. */
  lemma DivDiv(a: nat, p: nat, q: nat)
    requires p > 0 && q > 0
    ensures (a / p) / q == a / (p * q)
  {
    var x, r1 := a / p, a % p;
    var y, r2 := x / q, x % q;
    assert a == p * x + r1;
    assert x == q * y + r2;
    MulOut(p, q, y, r2);
    assert p * x == y * (p * q) + p * r2;
    ScaledRemainder(p, q, r2, r1);
    DivModUnique(a, p * q, y, p * r2 + r1);
  }

  /** Splitting off the lowest binary digit of a remainder modulo `2 * p`. */
  lemma ModDouble(x: nat, p: nat)
    requires p > 0
    ensures x % (2 * p) == 2 * ((x / 2) % p) + x % 2
  {
    var h := x / 2;
    assert x == 2 * h + x % 2;
    assert h == (h / p) * p + h % p;
    assert x == (h / p) * (2 * p) + (2 * (h % p) + x % 2);
    DivModUnique(x, 2 * p, h / p, 2 * (h % p) + x % 2);
  }

  /** C#'s `a & b` on non-negative operands, one binary digit at a time. */
  function BitAnd(a: nat, b: nat): (r: nat)
    ensures r <= a && r <= b
    decreases a
  {
    if a == 0 || b == 0 then 0
    else 2 * BitAnd(a / 2, b / 2) + (if a % 2 == 1 && b % 2 == 1 then 1 else 0)
  }

  /** A mask of `n` low one-bits keeps the remainder modulo `2^n`. */
  lemma {:induction false} BitAndLowMask(x: nat, n: nat)
    ensures BitAnd(x, Pow2(n) - 1) == x % Pow2(n)
    decreases n
  {
    if n > 0 && x > 0 {
      var p := Pow2(n - 1);
      var m := Pow2(n) - 1;
      assert m == 2 * (p - 1) + 1;
      assert m / 2 == p - 1 && m % 2 == 1;
      var inner := BitAnd(x / 2, p - 1);
      assert BitAnd(x, m) == 2 * inner + x % 2;
      BitAndLowMask(x / 2, n - 1);
      assert inner == (x / 2) % p;
      ModDouble(x, p);
      assert Pow2(n) == 2 * p;
      assert x % Pow2(n) == x % (2 * p);
    } else if n == 0 {
      assert Pow2(n) - 1 == 0;
    } else {
      DivModUnique(x, Pow2(n), 0, 0);
    }
  }

  lemma BitAndEven(a: nat, m: nat)
    ensures BitAnd(a, 2 * m) == 2 * BitAnd(a / 2, m)
  {
    if a != 0 && m != 0 {
      assert (2 * m) / 2 == m && (2 * m) % 2 == 0;
    }
  }

  /** `c << k` on unbounded naturals. */
  function Shl(c: nat, k: nat): (r: nat)
    ensures r == c * Pow2(k)
  {
    if k == 0 then c
    else
      Twice(c, Pow2(k - 1));
      2 * Shl(c, k - 1)
  }

  /** `a >> k` on unbounded naturals. */
  function Shr(a: nat, k: nat): nat
  {
    if k == 0 then a else Shr(a / 2, k - 1)
  }

  lemma {:induction false} ShrDiv(a: nat, k: nat)
    ensures Shr(a, k) == a / Pow2(k)
  {
    if k > 0 {
      ShrDiv(a / 2, k - 1);
      DivDiv(a, 2, Pow2(k - 1));
    } else {
      DivModUnique(a, 1, a, 0);
    }
  }

  /** A mask shifted left by `k` selects from `a` shifted right by `k`. */
  lemma {:induction false} BitAndShifted(a: nat, c: nat, k: nat)
    ensures BitAnd(a, Shl(c, k)) == Shl(BitAnd(Shr(a, k), c), k)
  {
    if k > 0 {
      BitAndEven(a, Shl(c, k - 1));
      BitAndShifted(a / 2, c, k - 1);
    }
  }

  /** A contiguous mask of `n` ones starting at bit `k` extracts that bit field, in place. */
  lemma BitAndField(a: nat, k: nat, n: nat)
    ensures BitAnd(a, Shl(Pow2(n) - 1, k)) == Shl(Shr(a, k) % Pow2(n), k)
  {
    BitAndShifted(a, Pow2(n) - 1, k);
    BitAndLowMask(Shr(a, k), n);
  }

  // ---------------------------------------------------------------------------
  // Binary digit strings

  /** A slice of a slice is a slice. */
  lemma SliceOfSlice(s: string, i: nat, j: nat, k: nat, l: nat)
    requires i <= j <= |s| && k <= l <= j - i
    ensures s[i..j][k..l] == s[i + k..i + l]
  {
    assert |s[i..j][k..l]| == |s[i + k..i + l]|;
    forall x | 0 <= x < l - k
      ensures s[i..j][k..l][x] == s[i + k..i + l][x]
    {
    }
  }

  predicate IsBinary(s: string) {
    forall i :: 0 <= i < |s| ==> s[i] == '0' || s[i] == '1'
  }

  function DigitValue(c: char): nat {
    if c == '1' then 1 else 0
  }

  /** The value of a most-significant-first binary string, as `Convert.ToUInt64(s, 2)`
      computes it for a string of at most 64 binary digits. */
  function Value(s: string): nat {
    if s == [] then 0 else 2 * Value(s[..|s| - 1]) + DigitValue(s[|s| - 1])
  }

  /** `new string(c, n)`. */
  function Repeat(c: char, n: nat): (r: string)
    ensures |r| == n
    ensures forall i :: 0 <= i < n ==> r[i] == c
  {
    if n == 0 then [] else Repeat(c, n - 1) + [c]
  }

  /** `Convert.ToString(n, 2)`: the binary digits of `n` without leading zeros ("0" for zero). */
  function ToBinary(n: nat): (r: string)
    ensures 1 <= |r| && IsBinary(r) && Value(r) == n
  {
    if n < 2 then [if n == 1 then '1' else '0']
    else
      var r := ToBinary(n / 2) + [if n % 2 == 1 then '1' else '0'];
      assert r[..|r| - 1] == ToBinary(n / 2);
      r
  }

  lemma {:induction false} ToBinaryLength(n: nat, k: nat)
    requires 1 <= k && n < Pow2(k)
    ensures |ToBinary(n)| <= k
  {
    if n >= 2 {
      assert k >= 2;
      ToBinaryLength(n / 2, k - 1);
    }
  }

  lemma {:induction false} ValueBound(s: string)
    ensures Value(s) < Pow2(|s|)
  {
    if s != [] {
      ValueBound(s[..|s| - 1]);
    }
  }

  /** The value of a concatenation: the left part is shifted past the right part. */
  lemma {:induction false} ValueConcat(s: string, t: string)
    ensures Value(s + t) == Value(s) * Pow2(|t|) + Value(t)
    decreases |t|
  {
    if t != [] {
      var t' := t[..|t| - 1];
      var d := DigitValue(t[|t| - 1]);
      var p := Pow2(|t'|);
      calc {
        Value(s + t);
        == { assert (s + t)[..|s + t| - 1] == s + t'; }
        2 * Value(s + t') + d;
        == { ValueConcat(s, t'); }
        2 * (Value(s) * p + Value(t')) + d;
        == { Twice(Value(s), p); }
        Value(s) * (2 * p) + (2 * Value(t') + d);
        ==
        Value(s) * Pow2(|t|) + Value(t);
      }
    } else {
      assert s + t == s;
    }
  }

  /** The digits `s[i..j]` are bits `|s|-i-1` down to `|s|-j` of `Value(s)`. */
  lemma ValueSlice(s: string, i: nat, j: nat)
    requires i <= j <= |s|
    ensures Value(s[i..j]) == (Value(s) / Pow2(|s| - j)) % Pow2(j - i)
  {
    var hi, lo := s[..j], s[j..];
    assert s == hi + lo;
    ValueConcat(hi, lo);
    ValueBound(lo);
    DivModUnique(Value(s), Pow2(|s| - j), Value(hi), Value(lo));
    assert hi == s[..i] + s[i..j];
    ValueConcat(s[..i], s[i..j]);
    ValueBound(s[i..j]);
    DivModUnique(Value(hi), Pow2(j - i), Value(s[..i]), Value(s[i..j]));
  }

  lemma {:induction false} ValueRepeat(c: char, n: nat)
    ensures Value(Repeat(c, n)) == if c == '1' then Pow2(n) - 1 else 0
  {
    if n > 0 {
      var r, r' := Repeat(c, n), Repeat(c, n - 1);
      assert r[..n - 1] == r';
      assert Value(r) == 2 * Value(r') + DigitValue(c);
      ValueRepeat(c, n - 1);
      assert Pow2(n) == 2 * Pow2(n - 1);
    }
  }

  /** Leading zeros do not change a binary value. */
  lemma LeadingZeros(n: nat, s: string)
    ensures Value(Repeat('0', n) + s) == Value(s)
  {
    ValueConcat(Repeat('0', n), s);
    ValueRepeat('0', n);
  }

  lemma ValueSingle(c: char)
    ensures Value([c]) == DigitValue(c)
  {
    assert [c][..0] == [];
  }

  lemma RepeatBinary(c: char, n: nat)
    requires c == '0' || c == '1'
    ensures IsBinary(Repeat(c, n))
  {
  }

  // ---------------------------------------------------------------------------
  // Words

  /** The little-endian 32-bit word `b3:b2:b1:b0` (an instruction word, or
      `BitConverter.ToUInt32` on a little-endian machine). */
  function Word(b0: byte, b1: byte, b2: byte, b3: byte): u32 {
    b0 + 0x100 * b1 + 0x1_0000 * b2 + 0x100_0000 * b3
  }

  /** C# unchecked `int` arithmetic: the two's-complement value of the low 32 bits. */
  function Int32(x: int): (r: int)
    ensures -0x8000_0000 <= r < 0x8000_0000
    ensures (r - x) % TWO_32 == 0
  {
    var r := (x + 0x8000_0000) % TWO_32 - 0x8000_0000;
    DivModUnique(r - x, TWO_32, -((x + 0x8000_0000) / TWO_32), 0);
    r
  }
}
