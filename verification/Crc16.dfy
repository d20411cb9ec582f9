/** The CRC-16 of the HM v3.6 frame (generator x^16 + x^12 + x^5 + 1, preset 0xFFFF).

    The register is written as its sixteen bits, most significant first; dropping the bit that
    is shifted out is the source's masking with 0xFFFF. */
module Crc16 {
  import opened BitStrings

  type Word = w: seq<bool> | |w| == 16 witness Zeros(16)

  const ZERO: Word := Zeros(16)

  /** 0x1021, the generator without its leading term. */
  const GENERATOR: Word := [false, false, false, true, false, false, false, false,
                            false, false, true, false, false, false, false, true]

  /** 0xFFFF */
  const PRESET: Word := Trues(16)

  function Left(w: Word): Word {
    w[1..] + [false]
  }

  /** Adding 0x1021 flips bits 12, 5 and 0. */
  function AddGenerator(w: Word): Word {
    w[3 := !w[3]][10 := !w[10]][15 := !w[15]]
  }

  lemma {:induction false} AddGeneratorIsXor(w: Word)
    ensures Xor(w, GENERATOR) == AddGenerator(w)
  {
  }

  /** One pass of the inner loop. */
  function Shift(w: Word): Word {
    if w[0] then AddGenerator(Left(w)) else Left(w)
  }

  function Shifts(w: Word, n: nat): Word {
    if n == 0 then w else Shift(Shifts(w, n - 1))
  }

  /** A byte moved into the upper half of the register. */
  function Upper(b: Byte): Word {
    Bits8(b) + Zeros(8)
  }

  function Absorb(crc: Word, b: Byte): Word {
    Shifts(Xor(crc, Upper(b)), 8)
  }

  function CrcFrom(crc: Word, data: seq<Byte>): Word
    decreases |data|
  {
    if data == [] then crc else CrcFrom(Absorb(crc, data[0]), data[1..])
  }

  function Crc(data: seq<Byte>): Word {
    CrcFrom(PRESET, data)
  }

  lemma {:induction false} CrcFromAppend(crc: Word, data: seq<Byte>, b: Byte)
    ensures CrcFrom(crc, data + [b]) == Absorb(CrcFrom(crc, data), b)
    decreases |data|
  {
    if data == [] {
    } else {
      assert (data + [b])[1..] == data[1..] + [b];
      CrcFromAppend(Absorb(crc, data[0]), data[1..], b);
    }
  }

  /** The nested loops of the source. */
  method Crc16Ccitt(data: seq<Byte>) returns (crc: Word)
    ensures crc == Crc(data)
  {
    crc := PRESET;
    for k := 0 to |data|
      invariant crc == CrcFrom(PRESET, data[..k])
    {
      assert data[..k + 1] == data[..k] + [data[k]];
      CrcFromAppend(PRESET, data[..k], data[k]);
      crc := Xor(crc, Upper(data[k]));
      ghost var start := crc;
      for n := 0 to 8
        invariant crc == Shifts(start, n)
      {
        if crc[0] {
          AddGeneratorIsXor(Left(crc));
          crc := Xor(Left(crc), GENERATOR);
        } else {
          crc := Left(crc);
        }
      }
    }
    assert data[..|data|] == data;
  }
}
