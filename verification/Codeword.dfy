/** What the CRC detects. A message followed by its CRC is a codeword: its remainder modulo the
    generator is zero. Errors that leave the remainder of the difference nonzero are caught. */
module Codeword {
  import opened BitStrings
  import opened Crc16

  /** Long division by the generator, one bit at a time, starting from remainder r. */
  function Rem(r: Word, bits: seq<bool>): Word
    decreases |bits|
  {
    if bits == [] then r else Rem(Feed(r, bits[0]), bits[1..])
  }

  function Feed(r: Word, bit: bool): Word {
    Shift(r)[15 := Shift(r)[15] != bit]
  }

  lemma {:induction false} RemAppend(r: Word, a: seq<bool>, b: seq<bool>)
    ensures Rem(r, a + b) == Rem(Rem(r, a), b)
    decreases |a|
  {
    if a == [] {
      assert a + b == b;
    } else {
      assert (a + b)[1..] == a[1..] + b;
      RemAppend(Feed(r, a[0]), a[1..], b);
    }
  }

  // ---- the division step is linear and loses nothing ----

  lemma {:induction false} ShiftIsLinear(a: Word, b: Word)
    ensures Shift(Xor(a, b)) == Xor(Shift(a), Shift(b))
  {
    var x := Xor(a, b);
    forall i | 0 <= i < 16
      ensures Shift(x)[i] == (Shift(a)[i] != Shift(b)[i])
    {
      assert x[0] == (a[0] != b[0]);
      if i < 15 {
        assert x[i + 1] == (a[i + 1] != b[i + 1]);
      }
    }
  }

  lemma {:induction false} ShiftsAreLinear(a: Word, b: Word, n: nat)
    ensures Shifts(Xor(a, b), n) == Xor(Shifts(a, n), Shifts(b, n))
  {
    if n == 0 {
    } else {
      ShiftsAreLinear(a, b, n - 1);
      ShiftIsLinear(Shifts(a, n - 1), Shifts(b, n - 1));
    }
  }

  lemma {:induction false} FeedIsLinear(a: Word, b: Word, x: bool, y: bool)
    ensures Feed(Xor(a, b), x != y) == Xor(Feed(a, x), Feed(b, y))
  {
    ShiftIsLinear(a, b);
  }

  lemma {:induction false} RemIsLinear(r: Word, s: Word, a: seq<bool>, b: seq<bool>)
    requires |a| == |b|
    ensures Rem(Xor(r, s), Xor(a, b)) == Xor(Rem(r, a), Rem(s, b))
    decreases |a|
  {
    if a == [] {
    } else {
      FeedIsLinear(r, s, a[0], b[0]);
      assert Xor(a, b)[1..] == Xor(a[1..], b[1..]);
      RemIsLinear(Feed(r, a[0]), Feed(s, b[0]), a[1..], b[1..]);
    }
  }

  /** The generator has a constant term, so a nonzero remainder never shifts away. */
  lemma {:induction false} ShiftKeepsNonzero(w: Word)
    requires w != ZERO
    ensures Shift(w) != ZERO
  {
    if Shift(w) == ZERO {
      assert Shift(w)[15] == w[0];
      forall i | 0 <= i < 16
        ensures !w[i]
      {
        if i > 0 {
          assert Shift(w)[i - 1] == w[i];
        }
      }
    }
  }

  lemma {:induction false} ShiftsKeepNonzero(w: Word, n: nat)
    requires w != ZERO
    ensures Shifts(w, n) != ZERO
  {
    if n == 0 {
    } else {
      ShiftsKeepNonzero(w, n - 1);
      ShiftKeepsNonzero(Shifts(w, n - 1));
    }
  }

  lemma {:induction false} ShiftsAdd(w: Word, m: nat, n: nat)
    ensures Shifts(w, m + n) == Shifts(Shifts(w, m), n)
  {
    if n == 0 {
    } else {
      ShiftsAdd(w, m, n - 1);
    }
  }

  lemma {:induction false} RemOfZeros(r: Word, n: nat)
    ensures Rem(r, Zeros(n)) == Shifts(r, n)
    decreases n
  {
    if n == 0 {
    } else {
      assert Zeros(n)[1..] == Zeros(n - 1);
      assert Feed(r, false) == Shift(r);
      RemOfZeros(Shift(r), n - 1);
      ShiftsAdd(r, 1, n - 1);
      assert Shifts(r, 1) == Shift(Shifts(r, 0));
    }
  }

  /** Equal words are exactly those whose difference is zero. */
  lemma {:induction false} XorZero(a: seq<bool>, b: seq<bool>)
    requires |a| == |b|
    ensures Xor(a, b) == Zeros(|a|) <==> a == b
  {
    if Xor(a, b) == Zeros(|a|) {
      forall i | 0 <= i < |a|
        ensures a[i] == b[i]
      {
        assert !Xor(a, b)[i];
      }
    }
  }

  // ---- a codeword is a multiple of the generator ----

  lemma {:induction false} FeedWithoutOverflow(w: Word, bit: bool)
    requires !w[0]
    ensures Feed(w, bit) == w[1..] + [bit]
  {
  }

  lemma {:induction false} SlideIn(w: seq<bool>, bits: seq<bool>)
    requires 0 < |bits| <= |w|
    ensures (w[1..] + [bits[0]])[|bits| - 1..] + bits[1..] == w[|bits|..] + bits
  {
    assert (w[1..] + [bits[0]])[|bits| - 1..] == w[|bits|..] + [bits[0]];
    assert [bits[0]] + bits[1..] == bits;
  }

  /** Bits that only push zeros out of the register cause no division step. */
  lemma {:induction false} RemOfShort(w: Word, bits: seq<bool>)
    requires |bits| <= 16 && forall i :: 0 <= i < |bits| ==> !w[i]
    ensures Rem(w, bits) == w[|bits|..] + bits
    decreases |bits|
  {
    if bits == [] {
    } else {
      FeedWithoutOverflow(w, bits[0]);
      RemOfShort(w[1..] + [bits[0]], bits[1..]);
      SlideIn(w, bits);
    }
  }

  lemma {:induction false} XorWithZeros(a: seq<bool>)
    ensures Xor(a, Zeros(|a|)) == a && Xor(Zeros(|a|), a) == a
  {
  }

  lemma {:induction false} RemOfBits(r: Word, bits: seq<bool>)
    requires |bits| <= 16
    ensures Rem(r, bits) == Xor(Shifts(r, |bits|), Zeros(16 - |bits|) + bits)
  {
    RemIsLinear(r, ZERO, Zeros(|bits|), bits);
    XorWithZeros(r);
    XorWithZeros(bits);
    RemOfZeros(r, |bits|);
    RemOfShort(ZERO, bits);
    assert ZERO[|bits|..] == Zeros(16 - |bits|);
  }

  function Lower(b: Byte): Word {
    Zeros(8) + Bits8(b)
  }

  lemma {:induction false} LowerShiftsToUpper(b: Byte)
    ensures Shifts(Lower(b), 8) == Upper(b)
  {
    RemOfShort(Lower(b), Zeros(8));
    RemOfZeros(Lower(b), 8);
  }

  lemma {:induction false} AddLater(r: Word, low: Word, up: Word, m: nat)
    requires Shifts(low, m) == up
    ensures Shifts(Xor(Shifts(r, m + m), up), m) == Shifts(Xor(Shifts(r, m), low), m + m)
  {
    ShiftsAdd(Xor(Shifts(r, m), low), m, m);
    ShiftsAreLinear(Shifts(r, m), low, m);
    ShiftsAdd(r, m, m);
  }

  /** Absorbing a byte at the top of the register is dividing it in sixteen places later. */
  lemma {:induction false} AbsorbDivides(r: Word, b: Byte)
    ensures Absorb(Shifts(r, |r|), b) == Shifts(Rem(r, Bits8(b)), |r|)
  {
    LowerShiftsToUpper(b);
    RemOfBits(r, Bits8(b));
    AddLater(r, Lower(b), Upper(b), 8);
  }

  lemma {:induction false} CrcDivides(r: Word, data: seq<Byte>)
    ensures CrcFrom(Shifts(r, |r|), data) == Shifts(Rem(r, BitsOf(data)), |r|)
    decreases |data|
  {
    if data == [] {
    } else {
      AbsorbDivides(r, data[0]);
      CrcDivides(Rem(r, Bits8(data[0])), data[1..]);
      RemAppend(r, Bits8(data[0]), BitsOf(data[1..]));
    }
  }

  function Unshift(w: Word): Word {
    [w[15]] + (if w[15] then AddGenerator(w) else w)[..15]
  }

  lemma {:induction false} ShiftUndoesUnshift(w: Word)
    ensures Shift(Unshift(w)) == w
  {
  }

  function Unshifts(w: Word, n: nat): (u: Word)
    ensures Shifts(u, n) == w
    decreases n
  {
    if n == 0 then w else
      ShiftUndoesUnshift(w);
      Unshifts(Unshift(w), n - 1)
  }

  /** Dividing from r is what starting the register at its preset amounts to. */
  predicate StandsForPreset(r: Word) {
    Shifts(r, |r|) == PRESET
  }

  lemma {:induction false} PresetStart() returns (r: Word)
    ensures StandsForPreset(r)
  {
    r := Unshifts(PRESET, |PRESET|);
  }

  /** The CRC of a message is the one word that makes the division come out even. */
  lemma {:induction false} CodewordIffCrc(r: Word, data: seq<Byte>, w: Word)
    requires StandsForPreset(r)
    ensures Rem(r, BitsOf(data) + w) == ZERO <==> w == Crc(data)
  {
    var q := Rem(r, BitsOf(data));
    CrcDivides(r, data);
    RemAppend(r, BitsOf(data), w);
    RemOfBits(q, w);
    assert Zeros(0) + w == w;
    XorZero(Shifts(q, |q|), w);
  }

  /** Two codewords of the same length differ by a multiple of the generator. */
  lemma {:induction false} DifferenceIsMultiple(a: seq<Byte>, b: seq<Byte>)
    requires |a| == |b|
    ensures Rem(ZERO, Xor(BitsOf(a) + Crc(a), BitsOf(b) + Crc(b))) == ZERO
  {
    var r := PresetStart();
    var u, v := Crc(a), Crc(b);
    CodewordIffCrc(r, a, u);
    CodewordIffCrc(r, b, v);
    RemIsLinear(r, r, BitsOf(a) + u, BitsOf(b) + v);
    XorZero(r, r);
    XorZero(ZERO, ZERO);
  }
}
