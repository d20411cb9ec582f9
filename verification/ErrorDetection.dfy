/** Which error patterns the CRC catches, and why: odd numbers of flipped bits, bursts of up to
    sixteen bits, and any two bits no further apart than a frame is long. */
module ErrorDetection {
  import opened BitStrings
  import opened Crc16
  import opened Codeword

  // ---- parity: the generator has an even number of terms ----

  lemma {:induction false} OnesOfNone(s: seq<bool>)
    requires forall i :: 0 <= i < |s| ==> !s[i]
    ensures Ones(s) == 0
  {
    if s == [] {
    } else {
      OnesOfNone(s[1..]);
    }
  }

  lemma {:induction false} OnesOfAll(s: seq<bool>)
    requires forall i :: 0 <= i < |s| ==> s[i]
    ensures Ones(s) == |s|
  {
    if s == [] {
    } else {
      OnesOfAll(s[1..]);
    }
  }

  function Flip(bit: bool, weight: nat): int {
    if bit then -(weight as int) else weight
  }

  lemma {:induction false} OnesFlip(s: seq<bool>, i: nat)
    requires i < |s|
    ensures Ones(s[i := !s[i]]) == Ones(s) + Flip(s[i], 1)
  {
    if i == 0 {
    } else {
      OnesFlip(s[1..], i - 1);
      assert s[i := !s[i]][1..] == s[1..][i - 1 := !s[i]];
    }
  }

  lemma {:induction false} ShiftKeepsParity(w: Word)
    ensures Ones(Shift(w)) % 2 == Ones(w) % 2
  {
    var u := Left(w);
    OnesAppend(w[1..], [false]);
    if w[0] {
      OnesFlip(u, 3);
      OnesFlip(u[3 := !u[3]], 10);
      OnesFlip(u[3 := !u[3]][10 := !u[10]], 15);
    }
  }

  lemma {:induction false} FeedParity(r: Word, bit: bool)
    ensures Ones(Feed(r, bit)) % 2 == (Ones(r) + Weight(bit, 1)) % 2
  {
    var s := Shift(r);
    ShiftKeepsParity(r);
    OnesAppend(s[..15], [s[15]]);
    OnesAppend(s[..15], [s[15] != bit]);
    assert s == s[..15] + [s[15]];
    assert Feed(r, bit) == s[..15] + [s[15] != bit];
  }

  lemma {:induction false} RemParity(r: Word, bits: seq<bool>)
    ensures Ones(Rem(r, bits)) % 2 == (Ones(r) + Ones(bits)) % 2
    decreases |bits|
  {
    if bits == [] {
    } else {
      FeedParity(r, bits[0]);
      RemParity(Feed(r, bits[0]), bits[1..]);
    }
  }

  lemma {:induction false} ShiftsKeepParity(w: Word, n: nat)
    ensures Ones(Shifts(w, n)) % 2 == Ones(w) % 2
  {
    if n == 0 {
    } else {
      ShiftsKeepParity(w, n - 1);
      ShiftKeepsParity(Shifts(w, n - 1));
    }
  }

  lemma {:induction false} AllSetParity(r: Word, n: nat, w: Word)
    requires Shifts(r, n) == w && forall i :: 0 <= i < 16 ==> w[i]
    ensures Ones(r) % 2 == 0
  {
    ShiftsKeepParity(r, n);
    OnesOfAll(w);
  }

  lemma {:induction false} PresetParity(r: Word)
    requires StandsForPreset(r)
    ensures Ones(r) % 2 == 0
  {
    AllSetParity(r, |r|, PRESET);
  }

  lemma {:induction false} EvenMultiples(r: Word, bits: seq<bool>)
    requires Rem(r, bits) == ZERO
    ensures (Ones(r) + Ones(bits)) % 2 == 0
  {
    RemParity(r, bits);
    OnesOfNone(Rem(r, bits));
  }

  lemma {:induction false} CodewordParity(r: Word, bits: seq<bool>, w: Word)
    requires StandsForPreset(r) && Rem(r, bits + w) == ZERO
    ensures Ones(w) % 2 == Ones(bits) % 2
  {
    PresetParity(r);
    EvenMultiples(r, bits + w);
    OnesAppend(bits, w);
  }

  /** The CRC has the same parity as the message it is computed over. */
  lemma {:induction false} CrcParity(data: seq<Byte>)
    ensures Ones(Crc(data)) % 2 == Ones(BitsOf(data)) % 2
  {
    var r := PresetStart();
    CodewordIffCrc(r, data, Crc(data));
    CodewordParity(r, BitsOf(data), Crc(data));
  }

  /** An odd number of flipped bits, anywhere, is caught. */
  lemma {:induction false} OddErrorsDetected(e: seq<bool>)
    requires Ones(e) % 2 == 1
    ensures Rem(ZERO, e) != ZERO
  {
    var r := ZERO;
    if Rem(r, e) == r {
      EvenMultiples(r, e);
      OnesOfNone(r);
    }
  }

  // ---- bursts ----

  lemma {:induction false} ShiftsOfZero(n: nat)
    ensures Shifts(ZERO, n) == ZERO
  {
    XorZero(ZERO, ZERO);
    ShiftsAreLinear(ZERO, ZERO, n);
    XorZero(Shifts(ZERO, n), Shifts(ZERO, n));
  }

  /** Errors confined to sixteen consecutive bits are caught, whatever the message length. */
  lemma {:induction false} BurstsDetected(before: nat, burst: seq<bool>, after: nat)
    requires |burst| <= 16 && true in burst
    ensures Rem(ZERO, Zeros(before) + burst + Zeros(after)) != ZERO
  {
    RemAppend(ZERO, Zeros(before) + burst, Zeros(after));
    RemAppend(ZERO, Zeros(before), burst);
    RemOfZeros(ZERO, before);
    ShiftsOfZero(before);
    RemOfShort(ZERO, burst);
    var r: Word := ZERO[|burst|..] + burst;
    var i :| 0 <= i < |burst| && burst[i];
    assert r[16 - |burst| + i];
    RemOfZeros(r, after);
    ShiftsKeepNonzero(r, after);
  }

  // ---- two flipped bits ----

  /** Shift, on the number the register stands for. */
  function Next(v: int): int {
    if v < 0x8000 then 2 * v else 2 * v - 0xFFFF + Flip(v / 0x800 % 2 == 1, 0x1000) + Flip(v / 0x10 % 2 == 1, 0x20)
  }

  lemma {:induction false} ValueAppend(s: seq<bool>, bit: bool)
    ensures Value(s + [bit]) == 2 * Value(s) + Weight(bit, 1)
  {
    assert (s + [bit])[..|s|] == s;
  }

  function Halved(v: nat, times: nat): nat {
    if times == 0 then v else Halved(v / 2, times - 1)
  }

  lemma {:induction false} BitOfValue(s: seq<bool>, j: nat)
    requires j < |s|
    ensures s[|s| - 1 - j] <==> Halved(Value(s), j) % 2 == 1
    decreases j
  {
    var p, last := s[..|s| - 1], s[|s| - 1];
    assert s == p + [last];
    ValueAppend(p, last);
    if j == 0 {
    } else {
      BitOfValue(p, j - 1);
    }
  }

  lemma {:induction false} UpdatePrefix(p: seq<bool>, last: bool, i: nat, bit: bool)
    requires i < |p|
    ensures (p + [last])[i := bit] == p[i := bit] + [last]
  {
  }

  lemma {:induction false} ValueFlip(s: seq<bool>, j: nat)
    requires j < |s|
    ensures var i := |s| - 1 - j; Value(s[i := !s[i]]) == Value(s) + Flip(s[i], Pow2(j))
    decreases j
  {
    var i := |s| - 1 - j;
    var p, last := s[..|s| - 1], s[|s| - 1];
    assert s == p + [last];
    ValueAppend(p, last);
    if j == 0 {
      ValueAppend(p, !last);
      assert s[i := !s[i]] == p + [!last];
    } else {
      ValueFlip(p, j - 1);
      UpdatePrefix(p, last, i, !p[i]);
      ValueAppend(p[i := !p[i]], last);
    }
  }

  lemma {:induction false} ValueOfLeadingZero(t: seq<bool>)
    ensures Value([false] + t) == Value(t)
  {
    if t == [] {
    } else {
      var p, last := t[..|t| - 1], t[|t| - 1];
      assert t == p + [last];
      assert [false] + t == ([false] + p) + [last];
      ValueAppend([false] + p, last);
      ValueAppend(p, last);
      ValueOfLeadingZero(p);
    }
  }

  lemma {:induction false} Halvings(v: nat)
    ensures Halved(v, 4) == v / 0x10 && Halved(v, 11) == v / 0x800
  {
    FourHalvings(v, 0);
    FourHalvings(v, 7);
    FourHalvings(v / 0x10, 3);
    ThreeHalvings(v / 0x100);
  }

  lemma {:induction false} ThreeHalvings(v: nat)
    ensures Halved(v, 3) == v / 8
  {
    assert Halved(v, 3) == Halved(v / 2, 2);
    assert Halved(v / 2, 2) == Halved(v / 2 / 2, 1);
  }

  lemma {:induction false} FourHalvings(v: nat, more: nat)
    ensures Halved(v, more + 4) == Halved(v / 0x10, more)
  {
    assert Halved(v, more + 4) == Halved(v / 2, more + 3);
    assert Halved(v / 2, more + 3) == Halved(v / 2 / 2, more + 2);
    assert Halved(v / 2 / 2, more + 2) == Halved(v / 2 / 2 / 2, more + 1);
    assert v / 2 / 2 / 2 / 2 == v / 0x10;
  }

  /** The top bit of a word, and twice the rest. */
  lemma {:induction false} ValueOfLeft(w: Word)
    ensures w[0] <==> Value(w) >= 0x8000
    ensures Value(Left(w)) == 2 * Value(w) - Weight(w[0], 0x10000)
  {
    var t := w[1..];
    assert Pow2(15) == 0x8000;
    BitsOfValue(t);
    ValueAppend(t, false);
    ValueOfLeadingZero(t);
    ValueFlip(w, 15);
    if w[0] {
      assert w[0 := false] == [false] + t;
    } else {
      assert w == [false] + t;
    }
  }

  lemma {:induction false} ValueOfShift(w: Word)
    ensures Value(Shift(w)) == Next(Value(w))
  {
    ValueOfLeft(w);
    if w[0] {
      var u := Left(w);
      assert Pow2(5) == 0x20 && Pow2(12) == 0x1000;
      Halvings(Value(w));
      BitOfValue(w, 4);
      BitOfValue(w, 11);
      ValueFlip(u, 12);
      var u1 := u[3 := !u[3]];
      ValueFlip(u1, 5);
      ValueFlip(u1[10 := !u1[10]], 0);
    }
  }

  lemma {:induction false} ValueOfZeros(n: nat)
    ensures Value(Zeros(n)) == 0
  {
    if n == 0 {
    } else {
      assert Zeros(n)[..n - 1] == Zeros(n - 1);
      ValueOfZeros(n - 1);
    }
  }

  ghost predicate Advances(f: nat -> int, n: nat) {
    f(n + 1) == Next(f(n))
  }

  lemma {:induction false} Eight(f: nat -> int, n: nat, v0: int, v1: int, v2: int, v3: int, v4: int, v5: int, v6: int, v7: int, v8: int)
    requires f(n) == v0
    requires forall k: nat :: Advances(f, k)
    requires v1 == Next(v0) && v2 == Next(v1) && v3 == Next(v2) && v4 == Next(v3)
    requires v5 == Next(v4) && v6 == Next(v5) && v7 == Next(v6) && v8 == Next(v7)
    requires 1 !in {v1, v2, v3, v4, v5, v6, v7, v8}
    ensures f(n + 8) == v8
    ensures forall k :: n < k <= n + 8 ==> f(k) != 1
  {
    assert Advances(f, n) && Advances(f, n + 1) && Advances(f, n + 2) && Advances(f, n + 3);
    assert Advances(f, n + 4) && Advances(f, n + 5) && Advances(f, n + 6) && Advances(f, n + 7);
  }

  lemma {:induction false} Orbit1(f: nat -> int)
    requires forall k: nat :: Advances(f, k)
    requires f(0) == 0x1
    ensures f(48) == 0xaa51
    ensures forall k :: 0 < k <= 48 ==> f(k) != 1
  {
    Eight(f, 0, 0x1, 0x2, 0x4, 0x8, 0x10, 0x20, 0x40, 0x80, 0x100);
    Eight(f, 8, 0x100, 0x200, 0x400, 0x800, 0x1000, 0x2000, 0x4000, 0x8000, 0x1021);
    Eight(f, 16, 0x1021, 0x2042, 0x4084, 0x8108, 0x1231, 0x2462, 0x48c4, 0x9188, 0x3331);
    Eight(f, 24, 0x3331, 0x6662, 0xccc4, 0x89a9, 0x373, 0x6e6, 0xdcc, 0x1b98, 0x3730);
    Eight(f, 32, 0x3730, 0x6e60, 0xdcc0, 0xa9a1, 0x4363, 0x86c6, 0x1dad, 0x3b5a, 0x76b4);
    Eight(f, 40, 0x76b4, 0xed68, 0xcaf1, 0x85c3, 0x1ba7, 0x374e, 0x6e9c, 0xdd38, 0xaa51);
  }

  lemma {:induction false} Orbit2(f: nat -> int)
    requires forall k: nat :: Advances(f, k)
    requires f(48) == 0xaa51
    ensures f(96) == 0xd849
    ensures forall k :: 48 < k <= 96 ==> f(k) != 1
  {
    Eight(f, 48, 0xaa51, 0x4483, 0x8906, 0x22d, 0x45a, 0x8b4, 0x1168, 0x22d0, 0x45a0);
    Eight(f, 56, 0x45a0, 0x8b40, 0x6a1, 0xd42, 0x1a84, 0x3508, 0x6a10, 0xd420, 0xb861);
    Eight(f, 64, 0xb861, 0x60e3, 0xc1c6, 0x93ad, 0x377b, 0x6ef6, 0xddec, 0xabf9, 0x47d3);
    Eight(f, 72, 0x47d3, 0x8fa6, 0xf6d, 0x1eda, 0x3db4, 0x7b68, 0xf6d0, 0xfd81, 0xeb23);
    Eight(f, 80, 0xeb23, 0xc667, 0x9cef, 0x29ff, 0x53fe, 0xa7fc, 0x5fd9, 0xbfb2, 0x6f45);
    Eight(f, 88, 0x6f45, 0xde8a, 0xad35, 0x4a4b, 0x9496, 0x390d, 0x721a, 0xe434, 0xd849);
  }

  lemma {:induction false} Orbit3(f: nat -> int)
    requires forall k: nat :: Advances(f, k)
    requires f(96) == 0xd849
    ensures f(144) == 0x10e2
    ensures forall k :: 96 < k <= 144 ==> f(k) != 1
  {
    Eight(f, 96, 0xd849, 0xa0b3, 0x5147, 0xa28e, 0x553d, 0xaa7a, 0x44d5, 0x89aa, 0x375);
    Eight(f, 104, 0x375, 0x6ea, 0xdd4, 0x1ba8, 0x3750, 0x6ea0, 0xdd40, 0xaaa1, 0x4563);
    Eight(f, 112, 0x4563, 0x8ac6, 0x5ad, 0xb5a, 0x16b4, 0x2d68, 0x5ad0, 0xb5a0, 0x7b61);
    Eight(f, 120, 0x7b61, 0xf6c2, 0xfda5, 0xeb6b, 0xc6f7, 0x9dcf, 0x2bbf, 0x577e, 0xaefc);
    Eight(f, 128, 0xaefc, 0x4dd9, 0x9bb2, 0x2745, 0x4e8a, 0x9d14, 0x2a09, 0x5412, 0xa824);
    Eight(f, 136, 0xa824, 0x4069, 0x80d2, 0x1185, 0x230a, 0x4614, 0x8c28, 0x871, 0x10e2);
  }

  lemma {:induction false} Orbit4(f: nat -> int)
    requires forall k: nat :: Advances(f, k)
    requires f(144) == 0x10e2
    ensures f(192) == 0x650b
    ensures forall k :: 144 < k <= 192 ==> f(k) != 1
  {
    Eight(f, 144, 0x10e2, 0x21c4, 0x4388, 0x8710, 0x1e01, 0x3c02, 0x7804, 0xf008, 0xf031);
    Eight(f, 152, 0xf031, 0xf043, 0xf0a7, 0xf16f, 0xf2ff, 0xf5df, 0xfb9f, 0xe71f, 0xde1f);
    Eight(f, 160, 0xde1f, 0xac1f, 0x481f, 0x903e, 0x305d, 0x60ba, 0xc174, 0x92c9, 0x35b3);
    Eight(f, 168, 0x35b3, 0x6b66, 0xd6cc, 0xbdb9, 0x6b53, 0xd6a6, 0xbd6d, 0x6afb, 0xd5f6);
    Eight(f, 176, 0xd5f6, 0xbbcd, 0x67bb, 0xcf76, 0x8ecd, 0xdbb, 0x1b76, 0x36ec, 0x6dd8);
    Eight(f, 184, 0x6dd8, 0xdbb0, 0xa741, 0x5ea3, 0xbd46, 0x6aad, 0xd55a, 0xba95, 0x650b);
  }

  lemma {:induction false} Orbit5(f: nat -> int)
    requires forall k: nat :: Advances(f, k)
    requires f(192) == 0x650b
    ensures f(240) == 0xf0e6
    ensures forall k :: 192 < k <= 240 ==> f(k) != 1
  {
    Eight(f, 192, 0x650b, 0xca16, 0x840d, 0x183b, 0x3076, 0x60ec, 0xc1d8, 0x9391, 0x3703);
    Eight(f, 200, 0x3703, 0x6e06, 0xdc0c, 0xa839, 0x4053, 0x80a6, 0x116d, 0x22da, 0x45b4);
    Eight(f, 208, 0x45b4, 0x8b68, 0x6f1, 0xde2, 0x1bc4, 0x3788, 0x6f10, 0xde20, 0xac61);
    Eight(f, 216, 0xac61, 0x48e3, 0x91c6, 0x33ad, 0x675a, 0xceb4, 0x8d49, 0xab3, 0x1566);
    Eight(f, 224, 0x1566, 0x2acc, 0x5598, 0xab30, 0x4641, 0x8c82, 0x925, 0x124a, 0x2494);
    Eight(f, 232, 0x2494, 0x4928, 0x9250, 0x3481, 0x6902, 0xd204, 0xb429, 0x7873, 0xf0e6);
  }

  lemma {:induction false} Orbit6(f: nat -> int)
    requires forall k: nat :: Advances(f, k)
    requires f(240) == 0xf0e6
    ensures f(272) == 0x8ddc
    ensures forall k :: 240 < k <= 272 ==> f(k) != 1
  {
    Eight(f, 240, 0xf0e6, 0xf1ed, 0xf3fb, 0xf7d7, 0xff8f, 0xef3f, 0xce5f, 0x8c9f, 0x91f);
    Eight(f, 248, 0x91f, 0x123e, 0x247c, 0x48f8, 0x91f0, 0x33c1, 0x6782, 0xcf04, 0x8e29);
    Eight(f, 256, 0x8e29, 0xc73, 0x18e6, 0x31cc, 0x6398, 0xc730, 0x9e41, 0x2ca3, 0x5946);
    Eight(f, 264, 0x5946, 0xb28c, 0x7539, 0xea72, 0xc4c5, 0x99ab, 0x2377, 0x46ee, 0x8ddc);
  }

  lemma {:induction false} OrbitFromOne(f: nat -> int, k: nat)
    requires forall n: nat :: Advances(f, n)
    requires f(0) == 1 && 0 < k <= 271
    ensures f(k) != 1
  {
    Orbit1(f);
    Orbit2(f);
    Orbit3(f);
    Orbit4(f);
    Orbit5(f);
    Orbit6(f);
  }

  /** 1, x, x^2, ... do not return to 1 within the length of a frame. */
  lemma {:induction false} OrbitAvoidsOne(one: Word, k: nat)
    requires Value(one) == 1 && 0 < k <= 271
    ensures Shifts(one, k) != one
  {
    var f := (n: nat) => Value(Shifts(one, n));
    forall n: nat
      ensures Advances(f, n)
    {
      ValueOfShift(Shifts(one, n));
    }
    OrbitFromOne(f, k);
  }

  lemma {:induction false} FirstOne(e: seq<bool>) returns (before: nat, rest: seq<bool>)
    requires Ones(e) > 0
    ensures e == Zeros(before) + [true] + rest
    ensures Ones(rest) == Ones(e) - 1
  {
    if e[0] {
      before, rest := 0, e[1..];
    } else {
      var n;
      n, rest := FirstOne(e[1..]);
      before := n + 1;
      assert Zeros(before) == [false] + Zeros(n);
    }
  }

  lemma {:induction false} NoOnes(e: seq<bool>)
    requires Ones(e) == 0
    ensures e == Zeros(|e|)
  {
    if e == [] {
    } else {
      NoOnes(e[1..]);
    }
  }

  /** Two flipped bits at a distance below 272 are caught. */
  lemma {:induction false} TwoBitsDetected(e: seq<bool>)
    requires Ones(e) == 2 && |e| <= 272
    ensures Rem(ZERO, e) != ZERO
  {
    var before, rest := FirstOne(e);
    var between, tail := FirstOne(rest);
    NoOnes(tail);
    var one: Word := ZERO[1..] + [true];
    RemOfTwo(before, between, |tail|, one);
    assert e == Zeros(before) + ([true] + (Zeros(between) + ([true] + Zeros(|tail|))));
    ValueAppend(ZERO[1..], true);
    assert ZERO[1..] == Zeros(15);
    ValueOfZeros(15);
    OrbitAvoidsOne(one, between + 1);
    XorZero(Shifts(one, between + 1), one);
    ShiftsKeepNonzero(Xor(Shifts(one, between + 1), one), |tail|);
  }

  lemma {:induction false} RemOfTwo(before: nat, between: nat, after: nat, one: Word)
    requires one == ZERO[1..] + [true]
    ensures Rem(ZERO, Zeros(before) + ([true] + (Zeros(between) + ([true] + Zeros(after)))))
         == Shifts(Xor(Shifts(one, between + 1), one), after)
  {
    RemAppend(ZERO, Zeros(before), [true] + (Zeros(between) + ([true] + Zeros(after))));
    RemOfZeros(ZERO, before);
    ShiftsOfZero(before);
    FeedWithoutOverflow(ZERO, true);
    RemAppend(ZERO, [true], Zeros(between) + ([true] + Zeros(after)));
    RemAppend(one, Zeros(between), [true] + Zeros(after));
    RemOfZeros(one, between);
    var r := Shifts(one, between);
    RemAppend(r, [true], Zeros(after));
    assert Feed(r, true) == Xor(Shift(r), one);
    RemOfZeros(Feed(r, true), after);
  }

  /** The code has distance at least four over the length of a frame. */
  lemma {:induction false} UpToThreeBitsDetected(e: seq<bool>)
    requires 1 <= Ones(e) <= 3 && |e| <= 272
    ensures Rem(ZERO, e) != ZERO
  {
    if Ones(e) == 2 {
      TwoBitsDetected(e);
    } else {
      OddErrorsDetected(e);
    }
  }
}
