/** Transmission errors, from the CRC up to the decoder. */
module FrameErrors {
  import opened BitStrings
  import opened Crc16
  import opened Codeword
  import opened ErrorDetection
  import opened HmFrame

  /** Number of bits in which two byte strings differ. */
  function Flips(a: seq<Byte>, b: seq<Byte>): nat
    requires |a| == |b|
  {
    Ones(Xor(BitsOf(a), BitsOf(b)))
  }

  ghost predicate SameOutside(a: seq<bool>, b: seq<bool>, from: nat)
    requires |a| == |b|
  {
    forall i :: 0 <= i < |a| && !(from <= i < from + 16) ==> a[i] == b[i]
  }

  lemma {:induction false} XorAppend(a: seq<bool>, b: seq<bool>, c: seq<bool>, d: seq<bool>)
    requires |a| == |c| && |b| == |d|
    ensures Xor(a + b, c + d) == Xor(a, c) + Xor(b, d)
  {
  }

  lemma {:induction false} BitsOfInjective(a: seq<Byte>, b: seq<Byte>)
    requires |a| == |b| && BitsOf(a) == BitsOf(b)
    ensures a == b
  {
    if a == [] {
    } else {
      assert BitsOf(a)[..8] == Bits8(a[0]) && BitsOf(b)[..8] == Bits8(b[0]);
      assert BitsOf(a)[8..] == BitsOf(a[1..]) && BitsOf(b)[8..] == BitsOf(b[1..]);
      ByteOfBits8(a[0]);
      ByteOfBits8(b[0]);
      BitsOfInjective(a[1..], b[1..]);
      assert a == [a[0]] + a[1..] && b == [b[0]] + b[1..];
    }
  }

  // ---- messages of every length ----

  lemma {:induction false} OnesOfXor(a: seq<bool>, b: seq<bool>)
    requires |a| == |b|
    ensures Ones(Xor(a, b)) % 2 == (Ones(a) + Ones(b)) % 2
  {
    if a == [] {
    } else {
      assert Xor(a, b)[1..] == Xor(a[1..], b[1..]);
      OnesOfXor(a[1..], b[1..]);
    }
  }

  /** Flipping an odd number of bits of a message changes its CRC. */
  lemma {:induction false} OddFlipsChangeCrc(a: seq<Byte>, b: seq<Byte>)
    requires |a| == |b| && Flips(a, b) % 2 == 1
    ensures Crc(a) != Crc(b)
  {
    OnesOfXor(BitsOf(a), BitsOf(b));
    CrcParity(a);
    CrcParity(b);
  }

  lemma {:induction false} SplitBurst(e: seq<bool>, from: nat) returns (burst: seq<bool>, after: nat)
    requires forall i :: 0 <= i < |e| && !(from <= i < from + 16) ==> !e[i]
    requires true in e
    ensures |burst| <= 16 && true in burst
    ensures e == Zeros(from) + burst + Zeros(after)
  {
    var k :| 0 <= k < |e| && e[k];
    var end := if from + 16 <= |e| then from + 16 else |e|;
    burst, after := e[from..end], |e| - end;
    assert burst[k - from];
  }

  lemma {:induction false} DifferenceHasOne(a: seq<bool>, b: seq<bool>)
    requires |a| == |b| && a != b
    ensures true in Xor(a, b)
  {
    var k :| 0 <= k < |a| && a[k] != b[k];
    assert Xor(a, b)[k];
  }

  /** Two messages that differ only within sixteen consecutive bits have different CRCs. */
  lemma {:induction false} BurstChangesCrc(a: seq<Byte>, b: seq<Byte>, from: nat)
    requires |a| == |b| && a != b && SameOutside(BitsOf(a), BitsOf(b), from)
    ensures Crc(a) != Crc(b)
  {
    if BitsOf(a) == BitsOf(b) {
      BitsOfInjective(a, b);
    }
    DifferenceHasOne(BitsOf(a), BitsOf(b));
    var e := Xor(BitsOf(a), BitsOf(b));
    var burst, after := SplitBurst(e, from);
    if Crc(a) == Crc(b) {
      DifferenceIsMultiple(a, b);
      XorAppend(BitsOf(a), Crc(a), BitsOf(b), Crc(b));
      XorZero(Crc(a), Crc(b));
      assert e + Zeros(16) == Zeros(from) + burst + Zeros(after + 16);
      BurstsDetected(from, burst, after + 16);
    }
  }

  lemma {:induction false} BitOfByte(data: seq<Byte>, i: nat)
    requires i < 8 * |data|
    ensures BitsOf(data)[i] == Bits8(data[i / 8])[i % 8]
  {
    if i < 8 {
    } else {
      BitOfByte(data[1..], i - 8);
      assert (i - 8) / 8 == i / 8 - 1 && (i - 8) % 8 == i % 8;
    }
  }

  /** In particular, damage confined to two adjacent bytes changes the CRC. */
  lemma {:induction false} AdjacentBytesChangeCrc(a: seq<Byte>, b: seq<Byte>, k: nat)
    requires |a| == |b| && a != b
    requires forall i :: 0 <= i < |a| && i != k && i != k + 1 ==> a[i] == b[i]
    ensures Crc(a) != Crc(b)
  {
    forall i | 0 <= i < 8 * |a| && !(8 * k <= i < 8 * k + 16)
      ensures BitsOf(a)[i] == BitsOf(b)[i]
    {
      BitOfByte(a, i);
      BitOfByte(b, i);
    }
    BurstChangesCrc(a, b, 8 * k);
  }

  // ---- frames ----

  /** A frame as a codeword: the body, then its CRC high byte first. */
  function CodeBits(frame: seq<Byte>): (s: seq<bool>)
    requires |frame| == FRAME_LEN
    ensures |s| == 272
  {
    BitsOf(frame[..BODY_LEN]) + CrcField(frame)
  }

  lemma {:induction false} ValidFramesDiffer(a: seq<Byte>, b: seq<Byte>)
    requires ValidFrame(a) && ValidFrame(b)
    ensures Rem(ZERO, Xor(CodeBits(a), CodeBits(b))) == ZERO
  {
    DifferenceIsMultiple(a[..BODY_LEN], b[..BODY_LEN]);
  }

  lemma {:induction false} BitsOfTwo(x: Byte, y: Byte)
    ensures BitsOf([x, y]) == Bits8(x) + Bits8(y)
  {
    assert [x, y][1..] == [y];
    assert [y][1..] == [];
    assert BitsOf([y]) == Bits8(y);
  }

  /** The order of the two CRC bytes does not matter for counting flipped bits. */
  lemma {:induction false} FlipsOfCodeBits(a: seq<Byte>, b: seq<Byte>)
    requires |a| == |b| == FRAME_LEN
    ensures Ones(Xor(CodeBits(a), CodeBits(b))) == Flips(a, b)
  {
    var x, y := BitsOf(a[..BODY_LEN]), BitsOf(b[..BODY_LEN]);
    var x0, x1, y0, y1 := Bits8(a[32]), Bits8(a[33]), Bits8(b[32]), Bits8(b[33]);
    BitsOfFrame(a);
    BitsOfFrame(b);
    OnesOfThree(x, x0, x1, y, y0, y1);
    OnesOfThree(x, x1, x0, y, y1, y0);
    assert CodeBits(a) == x + x1 + x0 && CodeBits(b) == y + y1 + y0;
  }

  lemma {:induction false} BitsOfFrame(frame: seq<Byte>)
    requires |frame| == FRAME_LEN
    ensures BitsOf(frame) == BitsOf(frame[..BODY_LEN]) + Bits8(frame[32]) + Bits8(frame[33])
  {
    assert frame == frame[..BODY_LEN] + [frame[32], frame[33]];
    BitsOfAppend(frame[..BODY_LEN], [frame[32], frame[33]]);
    BitsOfTwo(frame[32], frame[33]);
  }

  lemma {:induction false} OnesOfThree(x: seq<bool>, x0: seq<bool>, x1: seq<bool>, y: seq<bool>, y0: seq<bool>, y1: seq<bool>)
    requires |x| == |y| && |x0| == |y0| && |x1| == |y1|
    ensures Ones(Xor(x + x0 + x1, y + y0 + y1)) == Ones(Xor(x, y)) + Ones(Xor(x0, y0)) + Ones(Xor(x1, y1))
  {
    XorAppend(x + x0, x1, y + y0, y1);
    XorAppend(x, x0, y, y0);
    OnesAppend(Xor(x, y) + Xor(x0, y0), Xor(x1, y1));
    OnesAppend(Xor(x, y), Xor(x0, y0));
  }

  lemma {:induction false} AcceptedFrame(input: seq<Byte>)
    requires DecodeBytes(input).Ok? && |input| >= FRAME_LEN
    ensures ValidFrame(input[|input| - FRAME_LEN..])
  {
    AcceptedIff(input);
  }

  lemma {:induction false} RejectedFrame(input: seq<Byte>)
    requires |input| >= FRAME_LEN
    ensures !ValidFrame(input[|input| - FRAME_LEN..]) ==> DecodeBytes(input).Failed?
  {
    AcceptedIff(input);
  }

  predicate DetectableFlips(n: nat) {
    1 <= n <= 3 || n % 2 == 1
  }

  lemma {:induction false} FlippedFrameInvalid(a: seq<Byte>, b: seq<Byte>)
    requires ValidFrame(a) && |b| == FRAME_LEN && DetectableFlips(Flips(a, b))
    ensures !ValidFrame(b)
  {
    if ValidFrame(b) {
      ValidFramesDiffer(a, b);
      FlipsOfCodeBits(a, b);
      var e := Xor(CodeBits(a), CodeBits(b));
      if Ones(e) % 2 == 1 {
        OddErrorsDetected(e);
      } else {
        UpToThreeBitsDetected(e);
      }
    }
  }

  /** An accepted input stops being accepted when one, two, three or any odd number of bits of
      its frame are flipped, wherever they are. */
  lemma {:induction false} FlippedFrameRejected(input: seq<Byte>, damaged: seq<Byte>)
    requires DecodeBytes(input).Ok? && |damaged| == |input| >= FRAME_LEN
    requires DetectableFlips(Flips(input[|input| - FRAME_LEN..], damaged[|input| - FRAME_LEN..]))
    ensures DecodeBytes(damaged).Failed?
  {
    AcceptedFrame(input);
    RejectedFrame(damaged);
    FlippedFrameInvalid(input[|input| - FRAME_LEN..], damaged[|input| - FRAME_LEN..]);
  }

  lemma {:induction false} SameCrcField(a: seq<Byte>, b: seq<Byte>)
    requires |a| == |b| == FRAME_LEN && a[BODY_LEN..] == b[BODY_LEN..]
    ensures CrcField(a) == CrcField(b)
    ensures a != b ==> a[..BODY_LEN] != b[..BODY_LEN]
  {
    assert a == a[..BODY_LEN] + a[BODY_LEN..] && b == b[..BODY_LEN] + b[BODY_LEN..];
    assert a[32] == a[BODY_LEN..][0] && b[32] == b[BODY_LEN..][0];
    assert a[33] == a[BODY_LEN..][1] && b[33] == b[BODY_LEN..][1];
  }

  /** The frames differ, and only within sixteen consecutive bits of the body. */
  ghost predicate BodyBurst(a: seq<Byte>, b: seq<Byte>, from: nat) {
    && |a| == |b| == FRAME_LEN && a != b && a[BODY_LEN..] == b[BODY_LEN..]
    && SameOutside(BitsOf(a[..BODY_LEN]), BitsOf(b[..BODY_LEN]), from)
  }

  lemma {:induction false} OnlyOneValid(a: seq<Byte>, b: seq<Byte>, from: nat)
    requires ValidFrame(a) && BodyBurst(a, b, from)
    ensures !ValidFrame(b)
  {
    SameCrcField(a, b);
    BurstChangesCrc(a[..BODY_LEN], b[..BODY_LEN], from);
  }

  /** Damage confined to sixteen consecutive bits of the body is always noticed. */
  lemma {:induction false} BurstInBodyRejected(input: seq<Byte>, damaged: seq<Byte>, from: nat)
    requires DecodeBytes(input).Ok? && |damaged| == |input| >= FRAME_LEN
    requires BodyBurst(input[|input| - FRAME_LEN..], damaged[|input| - FRAME_LEN..], from)
    ensures DecodeBytes(damaged).Failed?
  {
    AcceptedFrame(input);
    RejectedFrame(damaged);
    OnlyOneValid(input[|input| - FRAME_LEN..], damaged[|input| - FRAME_LEN..], from);
  }
}
