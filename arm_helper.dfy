/** The immediate decoders of `ArmHelper`: a Thumb-2 MOVW/MOVT pair gives a 32-bit
    constant, and the A64 instructions ADR, ADRP and ADD (immediate) give a
    PC-relative address or an unsigned offset.

    Each decoder is modelled as the C# code computes it: `DecodeMov` as one
    expression with the C# integer widths written out, and the A64 decoders as
    methods that build the binary string `bin` in a loop and slice it. Each is
    proved equal to the architectural meaning of the instruction fields: ARMv7-A
    encoding T3 of MOV (immediate) and MOVT, and the A64 ADR, ADRP and
    ADD (immediate) encodings. A C# exception (an index or substring out of
    range on a too-short input) is the result `None`. */
module ArmHelper {
  import opened Bits
  import opened Wrappers

  // ---------------------------------------------------------------------------
  // Instruction words and their fields (the architectural view)

  /** A64 ADR/ADRP field `immlo`, bits 30..29. */
  function Immlo(w: u32): nat {
    (w / 0x2000_0000) % 4
  }

  /** A64 ADR/ADRP field `immhi`, bits 23..5. */
  function Immhi(w: u32): nat {
    (w / 0x20) % 0x8_0000
  }

  /** The 21-bit immediate `immhi:immlo` of ADR and ADRP. */
  function AdrImmediate(w: u32): (r: nat)
    ensures r < 0x20_0000
  {
    Immhi(w) * 4 + Immlo(w)
  }

  /** Two's-complement reading of a 21-bit field. */
  function SignExtend21(x: nat): (r: int)
    requires x < 0x20_0000
    ensures -0x10_0000 <= r < 0x10_0000
    ensures r >= 0 <==> x < 0x10_0000
    ensures r % 0x20_0000 == x
  {
    if x >= 0x10_0000 then
      DivModUnique(x - 0x20_0000, 0x20_0000, -1, x);
      x - 0x20_0000
    else
      DivModUnique(x, 0x20_0000, 0, x);
      x
  }

  /** ADR: the program counter plus the signed byte offset, modulo 2^64. */
  function AdrTarget(pc: u64, w: u32): u64 {
    (pc + SignExtend21(AdrImmediate(w))) % TWO_64
  }

  /** ADRP: the 4 KiB page of the program counter plus the signed page offset, modulo 2^64. */
  function AdrpTarget(pc: u64, w: u32): u64 {
    ((pc / 0x1000) * 0x1000 + SignExtend21(AdrImmediate(w)) * 0x1000) % TWO_64
  }

  /** A64 ADD (immediate) field `sh`, bit 22. */
  function AddShift(w: u32): nat {
    (w / 0x40_0000) % 2
  }

  /** A64 ADD (immediate) field `imm12`, bits 21..10. */
  function AddImm12(w: u32): nat {
    (w / 0x400) % 0x1000
  }

  /** The unsigned offset an ADD (immediate) adds: `imm12`, shifted left by 12 when `sh` is set. */
  function AddImmediate(w: u32): (r: u64)
    ensures AddShift(w) == 0 ==> r == AddImm12(w) && r < 0x1000
    ensures AddShift(w) == 1 ==> r == AddImm12(w) * 0x1000 && r % 0x1000 == 0 && r < 0x100_0000
  {
    if AddShift(w) == 1 then AddImm12(w) * 0x1000 else AddImm12(w)
  }

  /** The ADR/ADRP fields in terms of the bytes of the word. */
  lemma AdrFields(b0: byte, b1: byte, b2: byte, b3: byte)
    ensures Immhi(Word(b0, b1, b2, b3)) == b0 / 0x20 + 8 * b1 + 0x800 * b2
    ensures Immlo(Word(b0, b1, b2, b3)) == (b3 / 0x20) % 4
  {
    var w := Word(b0, b1, b2, b3);
    var q5 := b0 / 0x20 + 8 * b1 + 0x800 * b2 + 0x8_0000 * b3;
    DivModUnique(w, 0x20, q5, b0 % 0x20);
    DivModUnique(q5, 0x8_0000, b3, b0 / 0x20 + 8 * b1 + 0x800 * b2);
    var rest := b0 + 0x100 * b1 + 0x1_0000 * b2;
    DivModUnique(w, 0x2000_0000, b3 / 0x20, rest + 0x100_0000 * (b3 % 0x20));
    DivModUnique(b3 / 0x20, 4, b3 / 0x80, (b3 / 0x20) % 4);
  }

  /** The ADD (immediate) fields in terms of the bytes of the word. */
  lemma AddFields(b0: byte, b1: byte, b2: byte, b3: byte)
    ensures AddImm12(Word(b0, b1, b2, b3)) == b1 / 4 + 0x40 * (b2 % 0x40)
    ensures AddShift(Word(b0, b1, b2, b3)) == (b2 / 0x40) % 2
  {
    var w := Word(b0, b1, b2, b3);
    var q10 := b1 / 4 + 0x40 * b2 + 0x4000 * b3;
    DivModUnique(w, 0x400, q10, b0 + 0x100 * (b1 % 4));
    DivModUnique(q10, 0x1000, b2 / 0x40 + 4 * b3, b1 / 4 + 0x40 * (b2 % 0x40));
    var q22 := b2 / 0x40 + 4 * b3;
    DivModUnique(w, 0x40_0000, q22, b0 + 0x100 * b1 + 0x1_0000 * (b2 % 0x40));
    DivModUnique(q22, 2, b2 / 0x80 + 2 * b3, (b2 / 0x40) % 2);
  }

  // ---------------------------------------------------------------------------
  // The binary string the A64 decoders build

  /** One pass of the loop body: `Convert.ToString(b, 2)`, left-padded with zeros
      to eight digits when it is shorter. */
  function Octet(b: byte): (r: string)
    ensures |r| == 8 && IsBinary(r) && Value(r) == b
  {
    Pow2Small();
    ToBinaryLength(b, 8);
    var str := ToBinary(b);
    if |str| < 8 then
      LeadingZeros(8 - |str|, str);
      RepeatBinary('0', 8 - |str|);
      Repeat('0', 8 - |str|) + str
    else
      str
  }

  /** The string `bin` once the loop has seen `bytes`: their octets, first byte first. */
  function BinaryOf(bytes: seq<byte>): (r: string)
    ensures |r| == 8 * |bytes| && IsBinary(r)
  {
    if bytes == [] then []
    else BinaryOf(bytes[..|bytes| - 1]) + Octet(bytes[|bytes| - 1])
  }

  /** Digits `8k .. 8k+7` of `bin` are the octet of byte `k`. */
  lemma {:induction false} BinaryOfOctet(bytes: seq<byte>, k: nat)
    requires k < |bytes|
    ensures BinaryOf(bytes)[8 * k .. 8 * k + 8] == Octet(bytes[k])
    decreases |bytes|, 1
  {
    if k < |bytes| - 1 {
      BinaryOfOctetEarlier(bytes, k);
    } else {
      var n := |bytes| - 1;
      var pre, o := BinaryOf(bytes[..n]), Octet(bytes[n]);
      assert BinaryOf(bytes) == pre + o;
      SliceRight(pre, o);
    }
  }

  /** The step of `BinaryOfOctet` for a byte before the last. */
  lemma {:induction false} BinaryOfOctetEarlier(bytes: seq<byte>, k: nat)
    requires k < |bytes| - 1
    ensures BinaryOf(bytes)[8 * k .. 8 * k + 8] == Octet(bytes[k])
    decreases |bytes|, 0
  {
    var n := |bytes| - 1;
    var pre, o := BinaryOf(bytes[..n]), Octet(bytes[n]);
    assert BinaryOf(bytes)[8 * k .. 8 * k + 8] == pre[8 * k .. 8 * k + 8] by {
      assert BinaryOf(bytes) == pre + o;
      SliceLeft(pre, o, 8 * k, 8 * k + 8);
    }
    assert pre[8 * k .. 8 * k + 8] == Octet(bytes[k]) by {
      BinaryOfOctet(bytes[..n], k);
      assert bytes[..n][k] == bytes[k];
    }
  }

  lemma SliceLeft(s: string, t: string, i: nat, j: nat)
    requires i <= j <= |s|
    ensures (s + t)[i..j] == s[i..j]
  {
  }

  lemma SliceRight(s: string, t: string)
    ensures (s + t)[|s|..|s| + |t|] == t
  {
  }

  /** The `foreach` loop shared by `DecodeAdr`, `DecodeAdrp` and `DecodeAdd`. */
  method BinaryString(bytes: seq<byte>) returns (bin: string)
    ensures bin == BinaryOf(bytes)
    ensures |bin| == 8 * |bytes|
  {
    bin := "";
    for i := 0 to |bytes|
      invariant bin == BinaryOf(bytes[..i])
    {
      var str := ToBinary(bytes[i]);
      if |str| < 8 {
        str := Repeat('0', 8 - |str|) + str;
      }
      assert str == Octet(bytes[i]);
      assert BinaryOf(bytes[..i + 1]) == BinaryOf(bytes[..i]) + Octet(bytes[i]) by {
        assert bytes[..i + 1][..i] == bytes[..i];
      }
      bin := bin + str;
    }
    assert bytes[..|bytes|] == bytes;
  }

  /** The digits of one octet that the decoders slice out, and their values. */
  lemma OctetDigits(b: byte)
    ensures DigitValue(Octet(b)[0]) == b / 0x80
    ensures Value(Octet(b)[1..8]) == b % 0x80
    ensures Value(Octet(b)[0..3]) == b / 0x20
    ensures Value(Octet(b)[1..3]) == (b / 0x20) % 4
    ensures Value(Octet(b)[2..8]) == b % 0x40
    ensures Value(Octet(b)[0..6]) == b / 4
    ensures Octet(b)[1] == '1' <==> (b / 0x40) % 2 == 1
  {
    Pow2Small();
    OctetTopDigit(b);
    OctetSecondDigit(b);
    OctetLow(b, 1, 0x80);
    OctetLow(b, 2, 0x40);
    OctetHigh(b, 3, 0x20);
    OctetHigh(b, 6, 4);
    OctetMiddle(b);
  }

  lemma OctetTopDigit(b: byte)
    ensures DigitValue(Octet(b)[0]) == b / 0x80
  {
    Pow2Small();
    OctetDigit(b, 0);
    DivModUnique(b / 0x80, 2, 0, b / 0x80);
  }

  lemma OctetSecondDigit(b: byte)
    ensures Octet(b)[1] == '1' <==> (b / 0x40) % 2 == 1
  {
    Pow2Small();
    OctetDigit(b, 1);
  }

  /** The last `8 - i` digits hold the remainder modulo `m = 2^(8-i)`. */
  lemma OctetLow(b: byte, i: nat, m: nat)
    requires i <= 8 && m == Pow2(8 - i)
    ensures Value(Octet(b)[i..8]) == b % m
  {
    OctetSlice(b, i, 8);
    DivModUnique(b, 1, b, 0);
  }

  /** The first `j` digits hold the quotient by `d = 2^(8-j)`. */
  lemma OctetHigh(b: byte, j: nat, d: nat)
    requires j <= 8 && d == Pow2(8 - j)
    ensures Value(Octet(b)[0..j]) == b / d
  {
    OctetSlice(b, 0, j);
    QuotientFits(b, j, d);
  }

  /** The quotient of a byte by `2^(8-j)` has at most `j` binary digits. */
  lemma QuotientFits(b: nat, j: nat, d: nat)
    requires b < 256 && j <= 8 && d == Pow2(8 - j)
    ensures (b / d) % Pow2(j) == b / d
  {
    Pow2Add(8 - j, j);
    assert Pow2(8) == 256 by { Pow2Small(); }
    DivBelow(b, d, Pow2(j));
    DivBounds(b, d);
    DivModUnique(b / d, Pow2(j), 0, b / d);
  }

  lemma OctetMiddle(b: byte)
    ensures Value(Octet(b)[1..3]) == (b / 0x20) % 4
  {
    Pow2Small();
    OctetSlice(b, 1, 3);
  }

  /** Digits `i..j` of an octet are its bits `7-i` down to `8-j`. */
  lemma OctetSlice(b: byte, i: nat, j: nat)
    requires i <= j <= 8
    ensures Value(Octet(b)[i..j]) == (b / Pow2(8 - j)) % Pow2(j - i)
  {
    ValueSlice(Octet(b), i, j);
  }

  /** Digit `i` of an octet is its bit `7-i`. */
  lemma OctetDigit(b: byte, i: nat)
    requires i < 8
    ensures DigitValue(Octet(b)[i]) == (b / Pow2(7 - i)) % 2
    ensures Octet(b)[i] == '1' <==> (b / Pow2(7 - i)) % 2 == 1
  {
    var o := Octet(b);
    OctetSlice(b, i, i + 1);
    assert o[i..i + 1] == [o[i]];
    ValueSingle(o[i]);
  }

  /** The octets of the first four bytes, as slices of `bin`. */
  lemma FirstOctets(bytes: seq<byte>)
    requires |bytes| >= 4
    ensures BinaryOf(bytes)[0..8] == Octet(bytes[0])
    ensures BinaryOf(bytes)[8..16] == Octet(bytes[1])
    ensures BinaryOf(bytes)[16..24] == Octet(bytes[2])
    ensures BinaryOf(bytes)[24..32] == Octet(bytes[3])
  {
    BinaryOfOctet(bytes, 0);
    BinaryOfOctet(bytes, 1);
    BinaryOfOctet(bytes, 2);
    BinaryOfOctet(bytes, 3);
  }

  // ---------------------------------------------------------------------------
  // The immediate digits of ADR and ADRP

  /** The string both decoders start from: `n` copies of `bin[16]`, then `bin[17..24]`,
      `bin[8..16]`, `bin[0..3]` and `bin[25..27]`. */
  function ImmDigits(bin: string, n: nat): (r: string)
    requires |bin| >= 27
    ensures |r| == n + 20
  {
    Repeat(bin[16], n) + bin[17..24] + bin[8..16] + bin[0..3] + bin[25..27]
  }

  /** The twenty immediate digits, read from the bytes: `immhi` without its top bit, then `immlo`. */
  function Low20(b0: byte, b1: byte, b2: byte, b3: byte): (r: nat)
    ensures r < 0x10_0000
  {
    (b2 % 0x80) * 0x2000 + b1 * 0x20 + (b0 / 0x20) * 4 + (b3 / 0x20) % 4
  }

  /** The digit slices of `ImmDigits` are slices of the octets of bytes 0..3. */
  lemma ImmDigitsOctets(bytes: seq<byte>, n: nat)
    requires |bytes| >= 4
    ensures var o0, o1, o2, o3 := Octet(bytes[0]), Octet(bytes[1]), Octet(bytes[2]), Octet(bytes[3]);
            ImmDigits(BinaryOf(bytes), n) == Repeat(o2[0], n) + o2[1..8] + o1 + o0[0..3] + o3[1..3]
  {
    var bin := BinaryOf(bytes);
    FirstOctets(bytes);
    assert bin[16] == bin[16..24][0];
    SliceOfSlice(bin, 16, 24, 1, 8);
    SliceOfSlice(bin, 0, 8, 0, 3);
    SliceOfSlice(bin, 24, 32, 1, 3);
  }

  /** The value of `ImmDigits`: the sign digit repeated `n` times above the twenty low digits. */
  lemma ImmDigitsValue(bytes: seq<byte>, n: nat)
    requires |bytes| >= 4
    ensures Value(ImmDigits(BinaryOf(bytes), n))
         == (if bytes[2] >= 0x80 then (Pow2(n) - 1) * 0x10_0000 else 0)
            + Low20(bytes[0], bytes[1], bytes[2], bytes[3])
  {
    var b0, b1, b2, b3 := bytes[0], bytes[1], bytes[2], bytes[3];
    ImmDigitsOctets(bytes, n);
    var o0, o1, o2, o3 := Octet(b0), Octet(b1), Octet(b2), Octet(b3);
    OctetDigits(b0);
    OctetDigits(b2);
    OctetDigits(b3);
    var v := ConcatValue(Repeat(o2[0], n), o2[1..8], o1, o0[0..3], o3[1..3]);
    ValueRepeat(o2[0], n);
    assert o2[0] == '1' <==> b2 >= 0x80;
  }

  /** The value of a concatenation of five digit strings of the lengths `ImmDigits` uses. */
  lemma ConcatValue(s1: string, s2: string, s3: string, s4: string, s5: string) returns (v: nat)
    requires |s2| == 7 && |s3| == 8 && |s4| == 3 && |s5| == 2
    ensures v == Value(s1 + s2 + s3 + s4 + s5)
    ensures v == Value(s1) * 0x10_0000 + Value(s2) * 0x2000 + Value(s3) * 0x20 + Value(s4) * 4 + Value(s5)
  {
    Pow2Small();
    ValueConcat(s1, s2);
    ValueConcat(s1 + s2, s3);
    ValueConcat(s1 + s2 + s3, s4);
    ValueConcat(s1 + s2 + s3 + s4, s5);
    v := Value(s1 + s2 + s3 + s4 + s5);
  }

  /** The architectural immediate in terms of the bytes: the top bit of byte 2 is the sign. */
  lemma AdrImmediateBytes(b0: byte, b1: byte, b2: byte, b3: byte)
    ensures SignExtend21(AdrImmediate(Word(b0, b1, b2, b3)))
         == Low20(b0, b1, b2, b3) - (if b2 >= 0x80 then 0x10_0000 else 0)
  {
    AdrFields(b0, b1, b2, b3);
    DivModUnique(b2, 0x80, b2 / 0x80, b2 % 0x80);
  }

  // ---------------------------------------------------------------------------
  // DecodeAdr

  /** The 64-digit string `DecodeAdr` hands to `Convert.ToUInt64`: 44 sign digits
      above the twenty immediate digits. */
  function AdrDigits(bin: string): (r: string)
    requires |bin| >= 27
    ensures |r| == 64
  {
    ImmDigits(bin, 44)
  }

  /** The value of `AdrDigits` is the sign-extended immediate, modulo 2^64. */
  lemma AdrDigitsValue(bytes: seq<byte>)
    requires |bytes| >= 4
    ensures Value(AdrDigits(BinaryOf(bytes)))
         == SignExtend21(AdrImmediate(Word(bytes[0], bytes[1], bytes[2], bytes[3]))) % TWO_64
  {
    var b0, b1, b2, b3 := bytes[0], bytes[1], bytes[2], bytes[3];
    ImmDigitsValue(bytes, 44);
    AdrImmediateBytes(b0, b1, b2, b3);
    Pow2Large();
    var se := SignExtend21(AdrImmediate(Word(b0, b1, b2, b3)));
    var v := Value(AdrDigits(BinaryOf(bytes)));
    if b2 >= 0x80 {
      DivModUnique(se, TWO_64, -1, v);
    } else {
      DivModUnique(se, TWO_64, 0, v);
    }
  }

  /** `DecodeAdr(pc, code)`: the address an ADR instruction at `pc` computes. */
  method DecodeAdr(pc: u64, code: seq<byte>) returns (r: Option<u64>)
    ensures |code| < 4 ==> r == None
    ensures |code| >= 4 ==> r == Some(AdrTarget(pc, Word(code[0], code[1], code[2], code[3])))
  {
    var bin := BinaryString(code);
    if |bin| < 27 {
      // `bin[16]` or `bin.Substring(25, 2)` is out of range: the C# code throws.
      return None;
    }
    var digits := AdrDigits(bin);
    var v := Value(digits);
    AdrDigitsValue(code);
    AdrResult(pc, Word(code[0], code[1], code[2], code[3]), v);
    r := Some((pc + v) % TWO_64);
  }

  /** Adding the digit value that `AdrDigitsValue` gives to `pc` reaches the ADR target. */
  lemma AdrResult(pc: u64, w: u32, v: nat)
    requires v == SignExtend21(AdrImmediate(w)) % TWO_64
    ensures (pc + v) % TWO_64 == AdrTarget(pc, w)
  {
    ModAddCongruent(pc, SignExtend21(AdrImmediate(w)), v);
  }

  /** Adding congruent amounts gives the same sum modulo 2^64. */
  lemma ModAddCongruent(x: int, d: int, e: int)
    requires e == d % TWO_64
    ensures (x + e) % TWO_64 == (x + d) % TWO_64
  {
    var k := d / TWO_64;
    assert d == k * TWO_64 + e;
    var q := (x + d) / TWO_64;
    var m := (x + d) % TWO_64;
    assert x + d == q * TWO_64 + m;
    assert x + e == (q - k) * TWO_64 + m;
    DivModUnique(x + e, TWO_64, q - k, m);
  }

  /** The signed offset between `pc` and the ADR target lies in [-2^20, 2^20). */
  lemma AdrOffsetRange(pc: u64, w: u32)
    ensures var off := (AdrTarget(pc, w) - pc) % TWO_64;
            off < 0x10_0000 || off >= TWO_64 - 0x10_0000
  {
    var d := SignExtend21(AdrImmediate(w));
    var t := AdrTarget(pc, w);
    var q := (pc + d) / TWO_64;
    assert pc + d == q * TWO_64 + t;
    if d >= 0 {
      DivModUnique(t - pc, TWO_64, -q, d);
    } else {
      DivModUnique(t - pc, TWO_64, -q - 1, d + TWO_64);
    }
  }

  // ---------------------------------------------------------------------------
  // DecodeAdrp

  /** The 64-digit string `DecodeAdrp` hands to `Convert.ToUInt64`: 32 sign digits,
      the twenty immediate digits and twelve zeros. */
  function AdrpDigits(bin: string): (r: string)
    requires |bin| >= 27
    ensures |r| == 64
  {
    ImmDigits(bin, 32) + Repeat('0', 12)
  }

  /** The value of `AdrpDigits` is the sign-extended immediate times 4096, modulo 2^64. */
  lemma AdrpDigitsValue(bytes: seq<byte>)
    requires |bytes| >= 4
    ensures Value(AdrpDigits(BinaryOf(bytes)))
         == (SignExtend21(AdrImmediate(Word(bytes[0], bytes[1], bytes[2], bytes[3]))) * 0x1000) % TWO_64
  {
    var b0, b1, b2, b3 := bytes[0], bytes[1], bytes[2], bytes[3];
    var imm, zeros := ImmDigits(BinaryOf(bytes), 32), Repeat('0', 12);
    ImmDigitsValue(bytes, 32);
    Pow2Small();
    Pow2Large();
    ValueConcat(imm, zeros);
    ValueRepeat('0', 12);
    assert Value(imm + zeros) == Value(imm) * 0x1000;
    AdrImmediateBytes(b0, b1, b2, b3);
    PageScaled(b2 >= 0x80, Low20(b0, b1, b2, b3), Value(imm),
      SignExtend21(AdrImmediate(Word(b0, b1, b2, b3))), Value(imm + zeros));
  }

  /** The arithmetic behind `AdrpDigitsValue`: 32 sign digits and twelve zeros around
      twenty value digits make the sign-extended page offset, modulo 2^64. */
  lemma PageScaled(neg: bool, low: nat, u: nat, se: int, v: nat)
    requires low < 0x10_0000
    requires u == (if neg then 0xFFFF_FFFF * 0x10_0000 else 0) + low
    requires se == low - (if neg then 0x10_0000 else 0)
    requires v == u * 0x1000
    ensures v == (se * 0x1000) % TWO_64
  {
    if neg {
      DivModUnique(se * 0x1000, TWO_64, -1, v);
    } else {
      DivModUnique(se * 0x1000, TWO_64, 0, v);
    }
  }

  /** `pc & 0xFFFFFFFFFFFFF000` clears the low twelve bits: the start of the 4 KiB page. */
  lemma PageMask(pc: u64)
    ensures BitAnd(pc, 0xFFFF_FFFF_FFFF_F000) == (pc / 0x1000) * 0x1000
  {
    Pow2Small();
    Pow2Large();
    BitAndField(pc, 12, 52);
    ShrDiv(pc, 12);
    DivModUnique(pc / 0x1000, Pow2(52), 0, pc / 0x1000);
  }

  /** `DecodeAdrp(pc, code)`: the page address an ADRP instruction at `pc` computes. */
  method DecodeAdrp(pc: u64, code: seq<byte>) returns (r: Option<u64>)
    ensures |code| < 4 ==> r == None
    ensures |code| >= 4 ==> r == Some(AdrpTarget(pc, Word(code[0], code[1], code[2], code[3])))
  {
    var page := BitAnd(pc, 0xFFFF_FFFF_FFFF_F000);
    var bin := BinaryString(code);
    if |bin| < 27 {
      // `bin[16]` or `bin.Substring(25, 2)` is out of range: the C# code throws.
      return None;
    }
    var digits := AdrpDigits(bin);
    var v := Value(digits);
    AdrpDigitsValue(code);
    PageMask(pc);
    AdrpResult(pc, Word(code[0], code[1], code[2], code[3]), page, v);
    r := Some((page + v) % TWO_64);
  }

  /** Adding the digit value that `AdrpDigitsValue` gives to the page of `pc` reaches
      the ADRP target. */
  lemma AdrpResult(pc: u64, w: u32, page: nat, v: nat)
    requires page == (pc / 0x1000) * 0x1000
    requires v == (SignExtend21(AdrImmediate(w)) * 0x1000) % TWO_64
    ensures (page + v) % TWO_64 == AdrpTarget(pc, w)
  {
    ModAddCongruent(page, SignExtend21(AdrImmediate(w)) * 0x1000, v);
  }

  /** An ADRP target is always page aligned. */
  lemma AdrpAligned(pc: u64, w: u32)
    ensures AdrpTarget(pc, w) % 0x1000 == 0
  {
    var n := pc / 0x1000 + SignExtend21(AdrImmediate(w));
    var x := n * 0x1000;
    var q := x / TWO_64;
    var r := AdrpTarget(pc, w);
    assert x == q * TWO_64 + r;
    DivModUnique(r, 0x1000, n - q * 0x10_0000_0000_0000, 0);
  }

  /** An ADRP target does not depend on the low twelve bits of `pc`. */
  lemma AdrpIgnoresPageOffset(pc: u64, w: u32)
    ensures AdrpTarget(pc, w) == AdrpTarget(pc - pc % 0x1000, w)
  {
    DivModUnique(pc - pc % 0x1000, 0x1000, pc / 0x1000, 0);
  }

  /** A zero immediate at `pc = 0x1000` gives `0x1000`. */
  lemma AdrpZeroImmediate(w: u32)
    requires AdrImmediate(w) == 0
    ensures AdrpTarget(0x1000, w) == 0x1000
  {
  }

  // ---------------------------------------------------------------------------
  // DecodeAdd

  /** The 12-digit string `DecodeAdd` hands to `Convert.ToUInt64`: `bin[18..24]` then `bin[8..14]`. */
  function AddDigits(bin: string): (r: string)
    requires |bin| >= 24
    ensures |r| == 12
  {
    bin[18..24] + bin[8..14]
  }

  /** The value of `AddDigits` is `imm12`, and `bin[17]` is `sh`. */
  lemma AddDigitsValue(bytes: seq<byte>, b3: byte)
    requires |bytes| >= 3
    ensures Value(AddDigits(BinaryOf(bytes))) == AddImm12(Word(bytes[0], bytes[1], bytes[2], b3))
    ensures BinaryOf(bytes)[17] == '1' <==> AddShift(Word(bytes[0], bytes[1], bytes[2], b3)) == 1
  {
    AddDigitsBytes(bytes);
    AddFields(bytes[0], bytes[1], bytes[2], b3);
  }

  /** The ADD digits and shift digit in terms of bytes 1 and 2. */
  lemma AddDigitsBytes(bytes: seq<byte>)
    requires |bytes| >= 3
    ensures Value(AddDigits(BinaryOf(bytes))) == (bytes[2] as int % 0x40) * 0x40 + bytes[1] as int / 4
    ensures BinaryOf(bytes)[17] == '1' <==> (bytes[2] / 0x40) % 2 == 1
  {
    var bin := BinaryOf(bytes);
    var b1, b2 := bytes[1], bytes[2];
    BinaryOfOctet(bytes, 1);
    BinaryOfOctet(bytes, 2);
    SliceOfSlice(bin, 16, 24, 2, 8);
    SliceOfSlice(bin, 8, 16, 0, 6);
    assert bin[17] == bin[16..24][1];
    Pow2Small();
    OctetLow(b2, 2, 0x40);
    OctetHigh(b1, 6, 4);
    OctetSecondDigit(b2);
    ValueConcat(bin[18..24], bin[8..14]);
  }

  /** `DecodeAdd(ins)`: the unsigned immediate of an A64 ADD (immediate). Only the
      first three bytes are read; a missing fourth byte is taken as zero, which
      no field of the result depends on (`AddIgnoresTopByte`). */
  method DecodeAdd(ins: seq<byte>) returns (r: Option<u64>)
    ensures |ins| < 3 ==> r == None
    ensures |ins| == 3 ==> r == Some(AddImmediate(Word(ins[0], ins[1], ins[2], 0)))
    ensures |ins| >= 4 ==> r == Some(AddImmediate(Word(ins[0], ins[1], ins[2], ins[3])))
  {
    var bin := BinaryString(ins);
    if |bin| < 24 {
      // `bin.Substring(18, 6)` is out of range: the C# code throws.
      return None;
    }
    var b3: byte := if |ins| >= 4 then ins[3] else 0;
    AddDigitsValue(ins, b3);
    var v := Value(AddDigits(bin));
    if bin[17] == '1' {
      v := v * 0x1000;
    }
    r := Some(v);
  }

  /** The top byte of an ADD (immediate) word does not affect its offset. */
  lemma AddIgnoresTopByte(b0: byte, b1: byte, b2: byte, b3: byte, b3': byte)
    ensures AddImmediate(Word(b0, b1, b2, b3)) == AddImmediate(Word(b0, b1, b2, b3'))
  {
    AddFields(b0, b1, b2, b3);
    AddFields(b0, b1, b2, b3');
  }

  // ---------------------------------------------------------------------------
  // DecodeMov

  /** One half of `DecodeMov`, as the C# expression computes it from the four
      bytes of a MOVW or MOVT, truncated to `ushort`. */
  function MovHalf(b0: byte, b1: byte, b2: byte, b3: byte): u16 {
    (b2 + BitAnd(b3, 0x70) * 0x10 + BitAnd(b1, 0x04) * 0x200 + BitAnd(b0, 0x0F) * 0x1000) % TWO_16
  }

  /** The 16-bit immediate `imm4:i:imm3:imm8` of Thumb-2 encoding T3: `imm4` is bits
      3..0 of the first halfword, `i` its bit 10, `imm3` bits 14..12 of the second
      halfword and `imm8` its low byte. */
  function Imm16(b0: byte, b1: byte, b2: byte, b3: byte): u16 {
    (b0 % 0x10) * 0x1000 + ((b1 / 4) % 2) * 0x800 + ((b3 / 0x10) % 8) * 0x100 + b2
  }

  /** The masks select exactly the immediate fields, which are disjoint, so the sum
      never carries and the `ushort` cast never truncates. */
  lemma MovHalfFields(b0: byte, b1: byte, b2: byte, b3: byte)
    ensures MovHalf(b0, b1, b2, b3) == Imm16(b0, b1, b2, b3)
  {
    Pow2Small();
    BitAndField(b3, 4, 3);
    ShrDiv(b3, 4);
    BitAndField(b1, 2, 1);
    ShrDiv(b1, 2);
    BitAndLowMask(b0, 4);
    var sum := b2 + BitAnd(b3, 0x70) * 0x10 + BitAnd(b1, 0x04) * 0x200 + BitAnd(b0, 0x0F) * 0x1000;
    DivModUnique(sum, TWO_16, 0, sum);
  }

  /** `DecodeMov(asm)`: the constant a MOVW (bytes 0..3) and MOVT (bytes 4..7) pair
      loads. `high << 16` and the `+` are C# `int` operations and wrap; the final
      `(uint)` cast reinterprets the 32 bits. */
  function DecodeMov(asm: seq<byte>): (r: Option<u32>)
    ensures r.None? <==> |asm| < 8
  {
    if |asm| < 8 then None  // `asm[7]` is out of range: the C# code throws
    else
      var low := MovHalf(asm[0], asm[1], asm[2], asm[3]);
      var high := MovHalf(asm[4], asm[5], asm[6], asm[7]);
      Some(Int32(Int32((high as int) * 0x1_0000) + low) % TWO_32)
  }

  /** The 32-bit result is `high * 65536 + low` with each half the T3 immediate:
      the `int` wrap-around in the C# expression loses nothing. */
  lemma DecodeMovValue(asm: seq<byte>)
    requires |asm| >= 8
    ensures DecodeMov(asm)
         == Some(Imm16(asm[4], asm[5], asm[6], asm[7]) * 0x1_0000 + Imm16(asm[0], asm[1], asm[2], asm[3]))
  {
    MovHalfFields(asm[0], asm[1], asm[2], asm[3]);
    MovHalfFields(asm[4], asm[5], asm[6], asm[7]);
    WrapFree(MovHalf(asm[4], asm[5], asm[6], asm[7]), MovHalf(asm[0], asm[1], asm[2], asm[3]));
  }

  /** `(uint)((high << 16) + low)` in C# `int` arithmetic is `high * 65536 + low`:
      the shift may wrap to a negative `int`, and the cast undoes it. */
  lemma WrapFree(high: u16, low: u16)
    ensures Int32(Int32((high as int) * 0x1_0000) + low) % TWO_32 == (high as int) * 0x1_0000 + low
  {
    var x := (high as int) * 0x1_0000;
    var v := x + low;
    if x < 0x8000_0000 {
      DivModUnique(x + 0x8000_0000, TWO_32, 0, x + 0x8000_0000);
      DivModUnique(v + 0x8000_0000, TWO_32, 0, v + 0x8000_0000);
      DivModUnique(v, TWO_32, 0, v);
    } else {
      DivModUnique(x + 0x8000_0000, TWO_32, 1, x - 0x8000_0000);
      DivModUnique(v - TWO_32 + 0x8000_0000, TWO_32, 0, v - 0x8000_0000);
      DivModUnique(v - TWO_32, TWO_32, -1, v);
    }
  }

  /** Places a 16-bit immediate into the T3 fields of a MOVW or MOVT, keeping every
      other bit of the instruction `b0 b1 b2 b3`. */
  function PlaceImm16(v: u16, b0: byte, b1: byte, b2: byte, b3: byte): (r: seq<byte>)
    ensures |r| == 4
  {
    Imm16Split(v);
    [ (b0 / 0x10) * 0x10 + v / 0x1000,
      (b1 / 8) * 8 + ((v / 0x800) % 2) * 4 + b1 % 4,
      v % 0x100,
      (b3 / 0x80) * 0x80 + ((v / 0x100) % 8) * 0x10 + b3 % 0x10 ]
  }

  /** A 16-bit value is the sum of its T3 fields. */
  lemma Imm16Split(v: u16)
    ensures v / 0x1000 < 0x10
    ensures v == (v / 0x1000) * 0x1000 + ((v / 0x800) % 2) * 0x800 + ((v / 0x100) % 8) * 0x100 + v % 0x100
  {
    var h := v / 0x100;
    DivModUnique(v, 0x100, h, v % 0x100);
    DivModUnique(v, 0x800, h / 8, (h % 8) * 0x100 + v % 0x100);
    DivModUnique(v, 0x1000, h / 0x10, ((h / 8) % 2) * 0x800 + (h % 8) * 0x100 + v % 0x100);
    DivModUnique(h / 8, 2, h / 0x10, (h / 8) % 2);
  }

  /** Encodes `v` into a MOVW/MOVT pair whose non-immediate bits come from `template`. */
  function EncodeMov(v: u32, template: seq<byte>): (r: seq<byte>)
    requires |template| == 8
    ensures |r| == 8
  {
    PlaceImm16(v % 0x1_0000, template[0], template[1], template[2], template[3])
      + PlaceImm16(v / 0x1_0000, template[4], template[5], template[6], template[7])
  }

  /** A placed immediate reads back unchanged. */
  lemma PlaceImm16RoundTrip(v: u16, b0: byte, b1: byte, b2: byte, b3: byte)
    ensures var p := PlaceImm16(v, b0, b1, b2, b3);
            Imm16(p[0], p[1], p[2], p[3]) == v
  {
    var p := PlaceImm16(v, b0, b1, b2, b3);
    Imm16Split(v);
    var i, imm3 := (v / 0x800) % 2, (v / 0x100) % 8;
    DivModUnique(p[0], 0x10, b0 / 0x10, v / 0x1000);
    DivModUnique(p[1], 4, (b1 / 8) * 2 + i, b1 % 4);
    DivModUnique((b1 / 8) * 2 + i, 2, b1 / 8, i);
    DivModUnique(p[3], 0x10, (b3 / 0x80) * 8 + imm3, b3 % 0x10);
    DivModUnique((b3 / 0x80) * 8 + imm3, 8, b3 / 0x80, imm3);
  }

  /** Any 32-bit constant placed into a MOVW/MOVT pair, whatever its other bits,
      decodes back to itself. */
  lemma MovRoundTrip(v: u32, template: seq<byte>)
    requires |template| == 8
    ensures DecodeMov(EncodeMov(v, template)) == Some(v)
  {
    var e := EncodeMov(v, template);
    PlaceImm16RoundTrip(v % 0x1_0000, template[0], template[1], template[2], template[3]);
    PlaceImm16RoundTrip(v / 0x1_0000, template[4], template[5], template[6], template[7]);
    DecodeMovValue(e);
  }

  /** Bits outside the immediate fields never affect `DecodeMov`: two inputs that
      agree on every T3 field decode alike. */
  lemma MovIgnoresOtherBits(a: seq<byte>, b: seq<byte>)
    requires |a| >= 8 && |b| >= 8
    requires forall k :: 0 <= k < 8 && k % 4 == 0 ==> a[k] % 0x10 == b[k] % 0x10
    requires forall k :: 0 <= k < 8 && k % 4 == 1 ==> (a[k] / 4) % 2 == (b[k] / 4) % 2
    requires forall k :: 0 <= k < 8 && k % 4 == 2 ==> a[k] == b[k]
    requires forall k :: 0 <= k < 8 && k % 4 == 3 ==> (a[k] / 0x10) % 8 == (b[k] / 0x10) % 8
    ensures DecodeMov(a) == DecodeMov(b)
  {
    DecodeMovValue(a);
    DecodeMovValue(b);
    assert 4 % 4 == 0 && 5 % 4 == 1 && 6 % 4 == 2 && 7 % 4 == 3;
  }

  /** The pair `movw r?, #0x5678; movt r?, #0x1234` decodes to 0x12345678. */
  lemma DecodeMovExample(asm: seq<byte>)
    requires asm == [0x45, 0xF2, 0x78, 0x60, 0xC1, 0xF2, 0x34, 0x20]
    ensures DecodeMov(asm) == Some(0x1234_5678)
  {
    assert asm[0] == 0x45 && asm[1] == 0xF2 && asm[2] == 0x78 && asm[3] == 0x60;
    assert asm[4] == 0xC1 && asm[5] == 0xF2 && asm[6] == 0x34 && asm[7] == 0x20;
    assert Imm16(0x45, 0xF2, 0x78, 0x60) == 0x5678;
    assert Imm16(0xC1, 0xF2, 0x34, 0x20) == 0x1234;
    DecodeMovValue(asm);
  }
}
