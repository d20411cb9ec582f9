/** Bytes and bit strings. A bit string is written most significant bit first. */
module BitStrings {

  type Byte = b: int | 0 <= b < 256

  /** The low `width` bits of v. */
  function Bits(v: nat, width: nat): (s: seq<bool>)
    ensures |s| == width
  {
    if width == 0 then [] else Bits(v / 2, width - 1) + [v % 2 == 1]
  }

  function Value(s: seq<bool>): nat {
    if s == [] then 0 else 2 * Value(s[..|s| - 1]) + Weight(s[|s| - 1], 1)
  }

  function Weight(bit: bool, w: nat): nat {
    if bit then w else 0
  }

  function Pow2(n: nat): (p: nat)
    ensures p > 0
  {
    if n == 0 then 1 else 2 * Pow2(n - 1)
  }

  lemma {:induction false} ValueOfBits(v: nat, width: nat)
    requires v < Pow2(width)
    ensures Value(Bits(v, width)) == v
  {
    if width == 0 {
    } else {
      ValueOfBits(v / 2, width - 1);
      assert Bits(v, width)[..width - 1] == Bits(v / 2, width - 1);
    }
  }

  lemma {:induction false} BitsOfValue(s: seq<bool>)
    ensures Value(s) < Pow2(|s|)
    ensures Bits(Value(s), |s|) == s
  {
    if s == [] {
    } else {
      BitsOfValue(s[..|s| - 1]);
      assert s == s[..|s| - 1] + [s[|s| - 1]];
    }
  }

  function Bits8(b: Byte): (s: seq<bool>)
    ensures |s| == 8
  {
    Bits(b, 8)
  }

  function ByteOf(s: seq<bool>): (b: Byte)
    requires |s| == 8
    ensures Bits8(b) == s
  {
    BitsOfValue(s);
    assert Pow2(8) == 256;
    Value(s)
  }

  lemma ByteOfBits8(b: Byte)
    ensures ByteOf(Bits8(b)) == b
  {
    assert Pow2(8) == 256;
    ValueOfBits(b, 8);
  }

  function BitsOf(data: seq<Byte>): (s: seq<bool>)
    ensures |s| == 8 * |data|
  {
    if data == [] then [] else Bits8(data[0]) + BitsOf(data[1..])
  }

  lemma {:induction false} BitsOfAppend(a: seq<Byte>, b: seq<Byte>)
    ensures BitsOf(a + b) == BitsOf(a) + BitsOf(b)
  {
    if a == [] {
      assert a + b == b;
    } else {
      assert (a + b)[1..] == a[1..] + b;
      BitsOfAppend(a[1..], b);
    }
  }

  function Xor(a: seq<bool>, b: seq<bool>): (s: seq<bool>)
    requires |a| == |b|
    ensures |s| == |a|
    ensures forall i :: 0 <= i < |a| ==> s[i] == (a[i] != b[i])
  {
    seq(|a|, i requires 0 <= i < |a| => a[i] != b[i])
  }

  function Zeros(n: nat): (s: seq<bool>)
    ensures |s| == n
    ensures forall i :: 0 <= i < n ==> !s[i]
  {
    seq(n, i => false)
  }

  function Trues(n: nat): (s: seq<bool>)
    ensures |s| == n
    ensures forall i :: 0 <= i < n ==> s[i]
  {
    seq(n, i => true)
  }

  /** How many bits are set. */
  function Ones(s: seq<bool>): nat {
    if s == [] then 0 else Weight(s[0], 1) + Ones(s[1..])
  }

  lemma {:induction false} OnesAppend(a: seq<bool>, b: seq<bool>)
    ensures Ones(a + b) == Ones(a) + Ones(b)
  {
    if a == [] {
      assert a + b == b;
    } else {
      assert (a + b)[1..] == a[1..] + b;
      OnesAppend(a[1..], b);
    }
  }
}
