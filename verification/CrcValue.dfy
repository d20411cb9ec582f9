/** The CRC's value, apart from the register: a plain remainder, and the check value of the algorithm. */
module CrcValue {
  import opened BitStrings
  import opened Crc16
  import opened Codeword
  import opened ErrorDetection

  /** The first sixteen bits complemented. */
  function Complemented(bits: seq<bool>): (c: seq<bool>)
    requires |bits| >= 16
    ensures |c| == |bits|
    ensures forall i :: 0 <= i < |c| ==> c[i] == if i < 16 then !bits[i] else bits[i]
  {
    seq(|bits|, i requires 0 <= i < |bits| => if i < 16 then !bits[i] else bits[i])
  }

  lemma {:induction false} ComplementIsXor(bits: seq<bool>)
    requires |bits| >= 16
    ensures Xor(bits, Complemented(bits)) == Trues(16) + Zeros(|bits| - 16)
  {
  }

  /** Sixteen ones divided from the start that stands for the preset leave nothing. */
  lemma {:induction false} OnesCancel(r: Word, ones: Word, n: nat)
    requires Shifts(r, |ones|) == ones
    ensures Rem(r, ones + Zeros(n)) == Zeros(16)
  {
    RemAppend(r, ones, Zeros(n));
    RemOfBits(r, ones);
    assert Zeros(0) + ones == ones;
    XorZero(ones, ones);
    RemOfZeros(Zeros(16), n);
    ShiftsOfZero(n);
  }

  lemma {:induction false} FromTheStart(r: Word, bits: seq<bool>, ones: Word)
    requires |bits| >= 16 && ones == Trues(16) && Shifts(r, |ones|) == ones
    ensures Rem(r, bits) == Rem(Zeros(16), Complemented(bits))
  {
    OnesCancel(r, ones, |bits| - 16);
    ComplementIsXor(bits);
    RemIsLinear(r, Zeros(16), bits, Complemented(bits));
    XorWithZeros(r);
    XorZero(Rem(r, bits), Rem(Zeros(16), Complemented(bits)));
  }

  /** The CRC of a message of two bytes or more is the remainder, sixteen places up, of the message with
      its first sixteen bits complemented. */
  lemma {:induction false} CrcOfComplement(data: seq<Byte>)
    requires |data| >= 2
    ensures Crc(data) == Shifts(Rem(Zeros(16), Complemented(BitsOf(data))), 16)
  {
    var r := PresetStart();
    var ones := PRESET;
    FromTheStart(r, BitsOf(data), ones);
    CrcDivides(r, data);
  }

  // ---- values ----

  lemma {:induction false} ValueOfTrues(n: nat)
    ensures Value(Trues(n)) == Pow2(n) - 1
  {
    if n == 0 {
    } else {
      assert Trues(n)[..n - 1] == Trues(n - 1);
      ValueOfTrues(n - 1);
    }
  }

  /** The CRC of nothing is the initial value of the register. */
  lemma {:induction false} CrcOfNothing()
    ensures Value(Crc([])) == 0xFFFF
  {
    ValueOfTrues(16);
    assert Pow2(5) == 32;
    assert Pow2(10) == 0x400;
    assert Pow2(15) == 0x8000;
    assert Pow2(16) == 2 * Pow2(15);
  }

  function Doubled(v: nat, times: nat): nat {
    if times == 0 then v else 2 * Doubled(v, times - 1)
  }

  lemma {:induction false} ValueOfConcat(s: seq<bool>, t: seq<bool>)
    ensures Value(s + t) == Doubled(Value(s), |t|) + Value(t)
  {
    if t == [] {
      assert s + t == s;
    } else {
      var p, last := t[..|t| - 1], t[|t| - 1];
      assert t == p + [last] && s + t == (s + p) + [last];
      ValueOfConcat(s, p);
      ValueAppend(s + p, last);
      ValueAppend(p, last);
    }
  }

  lemma {:induction false} EightTimes(v: nat)
    ensures Doubled(v, 8) == 256 * v
  {
    assert Doubled(v, 4) == 2 * Doubled(v, 3) && Doubled(v, 3) == 2 * Doubled(v, 2);
    assert Doubled(v, 2) == 2 * Doubled(v, 1) && Doubled(v, 1) == 2 * Doubled(v, 0);
    assert Doubled(v, 8) == 2 * Doubled(v, 7) && Doubled(v, 7) == 2 * Doubled(v, 6);
    assert Doubled(v, 6) == 2 * Doubled(v, 5) && Doubled(v, 5) == 2 * Doubled(v, 4);
  }

  lemma {:induction false} ValueOfByte(b: Byte)
    ensures Value(Bits8(b)) == b
  {
    assert Pow2(8) == 256;
    ValueOfBits(b, 8);
  }

  lemma {:induction false} ValueOfBytes(high: Byte, low: Byte)
    ensures Value(Bits8(high) + Bits8(low)) == 256 * high + low
  {
    ValueOfConcat(Bits8(high), Bits8(low));
    EightTimes(high);
    ValueOfByte(high);
    ValueOfByte(low);
  }

  lemma {:induction false} SameValue(w: Word, u: Word)
    requires Value(w) == Value(u)
    ensures w == u
  {
    BitsOfValue(w);
    BitsOfValue(u);
  }

  /** Exclusive or of numbers of the given width. */
  function XorNumber(a: nat, b: nat, width: nat): nat {
    if width == 0 then 0
    else 2 * XorNumber(a / 2, b / 2, width - 1) + if a % 2 != b % 2 then 1 else 0
  }

  lemma {:induction false} XorOfBits(a: nat, b: nat, width: nat)
    ensures Xor(Bits(a, width), Bits(b, width)) == Bits(XorNumber(a, b, width), width)
  {
    if width == 0 {
    } else {
      XorOfBits(a / 2, b / 2, width - 1);
      var x, y := Bits(a / 2, width - 1), Bits(b / 2, width - 1);
      assert Xor(x + [a % 2 == 1], y + [b % 2 == 1]) == Xor(x, y) + [a % 2 != b % 2];
      assert XorNumber(a, b, width) / 2 == XorNumber(a / 2, b / 2, width - 1);
    }
  }

  lemma {:induction false} XorUpper(high: Byte, low: Byte, b: Byte, x: Byte)
    requires x == XorNumber(high, b, 8)
    ensures Xor(Bits8(high) + Bits8(low), Upper(b)) == Bits8(x) + Bits8(low)
  {
    XorOfBits(high, b, 8);
    XorWithZeros(Bits8(low));
    assert forall i :: 0 <= i < 8 ==> Bits8(x)[i] == (Bits8(high)[i] != Bits8(b)[i]);
  }

  /** One byte b into the register high, low, whose exclusive or with high is x: the values are those of
      the eight passes. */
  lemma {:induction false} AbsorbByte(
    w: Word, b: Byte, high: Byte, low: Byte, x: Byte,
    v1: int, v2: int, v3: int, v4: int, v5: int, v6: int, v7: int, v8: int)
    requires Value(w) == 256 * high + low && x == XorNumber(high, b, 8)
    requires v1 == Next(256 * x + low) && v2 == Next(v1) && v3 == Next(v2) && v4 == Next(v3)
    requires v5 == Next(v4) && v6 == Next(v5) && v7 == Next(v6) && v8 == Next(v7)
    ensures Value(Absorb(w, b)) == v8
  {
    ValueOfBytes(high, low);
    SameValue(w, Bits8(high) + Bits8(low));
    XorUpper(high, low, b, x);
    ValueOfBytes(x, low);
    EightShifts(Xor(w, Upper(b)), 256 * x + low, v1, v2, v3, v4, v5, v6, v7, v8);
  }

  lemma {:induction false} EightShifts(
    w: Word, v0: int, v1: int, v2: int, v3: int, v4: int, v5: int, v6: int, v7: int, v8: int)
    requires Value(w) == v0
    requires v1 == Next(v0) && v2 == Next(v1) && v3 == Next(v2) && v4 == Next(v3)
    requires v5 == Next(v4) && v6 == Next(v5) && v7 == Next(v6) && v8 == Next(v7)
    ensures Value(Shifts(w, 8)) == v8
  {
    FourShifts(w, v0, v1, v2, v3, v4);
    FourShifts(Shifts(w, 4), v4, v5, v6, v7, v8);
    ShiftsAdd(w, 4, 4);
  }

  lemma {:induction false} FourShifts(w: Word, v0: int, v1: int, v2: int, v3: int, v4: int)
    requires Value(w) == v0 && v1 == Next(v0) && v2 == Next(v1) && v3 == Next(v2) && v4 == Next(v3)
    ensures Value(Shifts(w, 4)) == v4
  {
    var s1 := Shift(w);
    var s2 := Shift(s1);
    var s3 := Shift(s2);
    ValueOfShift(w);
    ValueOfShift(s1);
    ValueOfShift(s2);
    ValueOfShift(s3);
    assert Shifts(w, 0) == w && Shifts(w, 1) == s1 && Shifts(w, 2) == s2 && Shifts(w, 3) == s3;
  }

  /** The digits from the k-th on, as in "123456789". */
  predicate DigitsFrom(data: seq<Byte>, k: nat) {
    k <= 9 && |data| == 9 - k && forall i :: 0 <= i < |data| ==> data[i] == 0x31 + k + i
  }

  lemma {:induction false} After8(w: Word, data: seq<Byte>)
    requires Value(w) == 0xa12b && DigitsFrom(data, 8)
    ensures Value(CrcFrom(w, data)) == 0x29B1
  {
    assert XorNumber(0xa1, 0x39, 8) == 0x98;
    AbsorbByte(w, data[0], 0xa1, 0x2b, 0x98, 0x2077, 0x40ee, 0x81dc, 0x1399, 0x2732, 0x4e64, 0x9cc8, 0x29b1);
  }

  lemma {:induction false} After7(w: Word, data: seq<Byte>)
    requires Value(w) == 0x7718 && DigitsFrom(data, 7)
    ensures Value(CrcFrom(w, data)) == 0x29B1
  {
    assert XorNumber(0x77, 0x38, 8) == 0x4f;
    AbsorbByte(w, data[0], 0x77, 0x18, 0x4f, 0x9e30, 0x2c41, 0x5882, 0xb104, 0x7229, 0xe452, 0xd885, 0xa12b);
    After8(Absorb(w, data[0]), data[1..]);
  }

  lemma {:induction false} After6(w: Word, data: seq<Byte>)
    requires Value(w) == 0x2ef4 && DigitsFrom(data, 6)
    ensures Value(CrcFrom(w, data)) == 0x29B1
  {
    assert XorNumber(0x2e, 0x37, 8) == 0x19;
    AbsorbByte(w, data[0], 0x2e, 0xf4, 0x19, 0x33e8, 0x67d0, 0xcfa0, 0x8f61, 0x0ee3, 0x1dc6, 0x3b8c, 0x7718);
    After7(Absorb(w, data[0]), data[1..]);
  }

  lemma {:induction false} After5(w: Word, data: seq<Byte>)
    requires Value(w) == 0x4560 && DigitsFrom(data, 5)
    ensures Value(CrcFrom(w, data)) == 0x29B1
  {
    assert XorNumber(0x45, 0x36, 8) == 0x73;
    AbsorbByte(w, data[0], 0x45, 0x60, 0x73, 0xe6c0, 0xdda1, 0xab63, 0x46e7, 0x8dce, 0x0bbd, 0x177a, 0x2ef4);
    After6(Absorb(w, data[0]), data[1..]);
  }

  lemma {:induction false} After4(w: Word, data: seq<Byte>)
    requires Value(w) == 0x5349 && DigitsFrom(data, 4)
    ensures Value(CrcFrom(w, data)) == 0x29B1
  {
    assert XorNumber(0x53, 0x35, 8) == 0x66;
    AbsorbByte(w, data[0], 0x53, 0x49, 0x66, 0xcc92, 0x8905, 0x022b, 0x0456, 0x08ac, 0x1158, 0x22b0, 0x4560);
    After5(Absorb(w, data[0]), data[1..]);
  }

  lemma {:induction false} After3(w: Word, data: seq<Byte>)
    requires Value(w) == 0x5bce && DigitsFrom(data, 3)
    ensures Value(CrcFrom(w, data)) == 0x29B1
  {
    assert XorNumber(0x5b, 0x34, 8) == 0x6f;
    AbsorbByte(w, data[0], 0x5b, 0xce, 0x6f, 0xdf9c, 0xaf19, 0x4e13, 0x9c26, 0x286d, 0x50da, 0xa1b4, 0x5349);
    After4(Absorb(w, data[0]), data[1..]);
  }

  lemma {:induction false} After2(w: Word, data: seq<Byte>)
    requires Value(w) == 0x3dba && DigitsFrom(data, 2)
    ensures Value(CrcFrom(w, data)) == 0x29B1
  {
    assert XorNumber(0x3d, 0x33, 8) == 0x0e;
    AbsorbByte(w, data[0], 0x3d, 0xba, 0x0e, 0x1d74, 0x3ae8, 0x75d0, 0xeba0, 0xc761, 0x9ee3, 0x2de7, 0x5bce);
    After3(Absorb(w, data[0]), data[1..]);
  }

  lemma {:induction false} After1(w: Word, data: seq<Byte>)
    requires Value(w) == 0xc782 && DigitsFrom(data, 1)
    ensures Value(CrcFrom(w, data)) == 0x29B1
  {
    assert XorNumber(0xc7, 0x32, 8) == 0xf5;
    AbsorbByte(w, data[0], 0xc7, 0x82, 0xf5, 0xfb25, 0xe66b, 0xdcf7, 0xa9cf, 0x43bf, 0x877e, 0x1edd, 0x3dba);
    After2(Absorb(w, data[0]), data[1..]);
  }

  lemma {:induction false} After0(w: Word, data: seq<Byte>)
    requires Value(w) == 0xffff && DigitsFrom(data, 0)
    ensures Value(CrcFrom(w, data)) == 0x29B1
  {
    assert XorNumber(0xff, 0x31, 8) == 0xce;
    AbsorbByte(w, data[0], 0xff, 0xff, 0xce, 0x8ddf, 0x0b9f, 0x173e, 0x2e7c, 0x5cf8, 0xb9f0, 0x63c1, 0xc782);
    After1(Absorb(w, data[0]), data[1..]);
  }

  /** The algorithm's published check value: "123456789" has the CRC 0x29B1. */
  lemma {:induction false} CheckValue(data: seq<Byte>)
    requires |data| == 9 && forall i :: 0 <= i < 9 ==> data[i] == 0x31 + i
    ensures Value(Crc(data)) == 0x29B1
  {
    CrcOfNothing();
    After0(Crc([]), data);
  }
}
