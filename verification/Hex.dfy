/** Hexadecimal text: Python's bytes.fromhex and bytes.hex().upper(). */
module Hex {
  import opened Wrappers
  import opened BitStrings

  function Digit(c: char): Option<nat> {
    if '0' <= c <= '9' then Some((c - '0') as int)
    else if 'A' <= c <= 'F' then Some((c - 'A') as int + 10)
    else if 'a' <= c <= 'f' then Some((c - 'a') as int + 10)
    else None
  }

  predicate IsHexDigit(c: char) {
    Digit(c).Some?
  }

  function UpperDigit(n: nat): (c: char)
    requires n < 16
    ensures Digit(c) == Some(n)
    ensures '0' <= c <= '9' || 'A' <= c <= 'F'
  {
    if n < 10 then '0' + n as char else 'A' + (n - 10) as char
  }

  predicate IsSpace(c: char) {
    c == ' ' || '\U{9}' <= c <= '\U{D}'
  }

  /** bytes.fromhex: whitespace is skipped between bytes, each byte is two adjacent digits. */
  function FromHex(s: string): Option<seq<Byte>> {
    if s == "" then Some([])
    else if IsSpace(s[0]) then FromHex(s[1..])
    else if |s| < 2 || Digit(s[0]).None? || Digit(s[1]).None? then None
    else
      match FromHex(s[2..])
      case None => None
      case Some(rest) => Some([ByteOfDigits(s[0], s[1])] + rest)
  }

  function ByteOfDigits(high: char, low: char): Byte
    requires IsHexDigit(high) && IsHexDigit(low)
  {
    16 * Digit(high).value + Digit(low).value
  }

  function ToHex(data: seq<Byte>): (s: string)
    ensures |s| == 2 * |data|
    ensures forall i :: 0 <= i < |s| ==> '0' <= s[i] <= '9' || 'A' <= s[i] <= 'F'
  {
    if data == [] then ""
    else [UpperDigit(data[0] / 16), UpperDigit(data[0] % 16)] + ToHex(data[1..])
  }

  /** Nothing else is a digit. */
  lemma {:induction false} NoOtherDigits(c: char)
    ensures Digit(c).Some? <==> '0' <= c <= '9' || 'A' <= c <= 'F' || 'a' <= c <= 'f'
  {
  }

  /** The digits and their values, in either case. */
  lemma {:induction false} DigitsAre(k: nat)
    requires k < 16
    ensures UpperDigit(k) == "0123456789ABCDEF"[k]
    ensures Digit("0123456789ABCDEF"[k]) == Some(k) && Digit("0123456789abcdef"[k]) == Some(k)
  {
  }

  /** A byte is written as its high digit, then its low digit. */
  lemma {:induction false} HexOfByte(b: Byte, more: seq<Byte>)
    ensures ToHex([b] + more) == ["0123456789ABCDEF"[b / 16], "0123456789ABCDEF"[b % 16]] + ToHex(more)
  {
    DigitsAre(b / 16);
    DigitsAre(b % 16);
    assert ([b] + more)[1..] == more;
  }

  /** Two digits read as a byte, high digit first; whitespace in front of a byte is skipped; a digit on
      its own or a character that is neither does not read. */
  lemma {:induction false} ReadsBytes(high: char, low: char, rest: string, more: seq<Byte>)
    requires FromHex(rest) == Some(more)
    ensures Digit(high).Some? && Digit(low).Some? ==>
              FromHex([high, low] + rest) == Some([16 * Digit(high).value + Digit(low).value] + more)
    ensures high == ' ' || '\U{9}' <= high <= '\U{D}' ==> FromHex([high] + rest) == Some(more)
    ensures Digit(high).Some? ==> FromHex([high]) == None
    ensures Digit(high).None? && high != ' ' && !('\U{9}' <= high <= '\U{D}') ==> FromHex([high] + rest) == None
    ensures Digit(high).Some? && Digit(low).None? ==> FromHex([high, low] + rest) == None
  {
    var one, two := [high] + rest, [high, low] + rest;
    assert one[0] == high && one[1..] == rest;
    assert two[0] == high && two[1] == low && two[2..] == rest;
  }

  lemma {:induction false} FromToHex(data: seq<Byte>)
    ensures FromHex(ToHex(data)) == Some(data)
  {
    if data == [] {
    } else {
      FromToHex(data[1..]);
      var s := ToHex(data);
      assert s[2..] == ToHex(data[1..]);
      assert s[0] == UpperDigit(data[0] / 16) && s[1] == UpperDigit(data[0] % 16);
      assert ByteOfDigits(s[0], s[1]) == data[0];
      assert data == [data[0]] + data[1..];
    }
  }

  /** Distinct byte strings print differently. */
  lemma {:induction false} ToHexInjective(a: seq<Byte>, b: seq<Byte>)
    requires ToHex(a) == ToHex(b)
    ensures a == b
  {
    FromToHex(a);
    FromToHex(b);
  }

  // ---- canonical serial numbers ----

  function Upper(c: char): char {
    if 'a' <= c <= 'f' then c - 'a' + 'A' else c
  }

  /** Everything but hex digits dropped, the rest in upper case. */
  function UpperDigits(s: string): (r: string)
    ensures forall i :: 0 <= i < |r| ==> '0' <= r[i] <= '9' || 'A' <= r[i] <= 'F'
  {
    if s == "" then ""
    else if IsHexDigit(s[0]) then [Upper(s[0])] + UpperDigits(s[1..])
    else UpperDigits(s[1..])
  }

  function Colons(s: string): string
    requires |s| % 2 == 0
  {
    if |s| <= 2 then s else s[..2] + ":" + Colons(s[2..])
  }

  const UID_HEX_LEN: nat := 16

  function NormalizeSerial(s: string): Option<string> {
    var digits := UpperDigits(s);
    if |digits| != UID_HEX_LEN then None else Some(Colons(digits))
  }

  /** What a serial keeps of each character: a digit, a letter of A..F or a..f as the capital, or nothing. */
  lemma {:induction false} UpperDigitOf(c: char)
    ensures UpperDigits([c])
         == if '0' <= c <= '9' || 'A' <= c <= 'F' then [c]
            else if 'a' <= c <= 'f' then [c - 'a' + 'A'] else []
  {
    assert [c][1..] == "";
  }

  lemma {:induction false} ColonsShape(s: string, k: nat)
    requires |s| % 2 == 0 && |s| >= 2 && k < |s| / 2
    ensures |Colons(s)| == |s| + |s| / 2 - 1
    ensures Colons(s)[3 * k] == s[2 * k] && Colons(s)[3 * k + 1] == s[2 * k + 1]
    ensures k + 1 < |s| / 2 ==> Colons(s)[3 * k + 2] == ':'
  {
    if |s| > 2 {
      ColonsShape(s[2..], if k == 0 then 0 else k - 1);
      assert Colons(s) == s[..2] + ":" + Colons(s[2..]);
    }
  }

  /** A serial exists exactly for sixteen hex digits, and is eight pairs of them between colons. */
  lemma {:induction false} SerialShape(s: string, k: nat)
    requires k < 8
    ensures NormalizeSerial(s).Some? <==> |UpperDigits(s)| == 16
    ensures NormalizeSerial(s).Some? ==>
              var r := NormalizeSerial(s).value;
              |r| == 23 && r[3 * k] == UpperDigits(s)[2 * k] && r[3 * k + 1] == UpperDigits(s)[2 * k + 1]
              && (k < 7 ==> r[3 * k + 2] == ':')
  {
    if |UpperDigits(s)| == 16 {
      ColonsShape(UpperDigits(s), k);
    }
  }

  lemma {:induction false} UpperDigitsAppend(s: string, t: string)
    ensures UpperDigits(s + t) == UpperDigits(s) + UpperDigits(t)
  {
    if s == "" {
      assert s + t == t;
    } else {
      assert (s + t)[1..] == s[1..] + t;
      UpperDigitsAppend(s[1..], t);
    }
  }

  lemma {:induction false} UpperDigitsOfDigits(s: string)
    requires forall i :: 0 <= i < |s| ==> '0' <= s[i] <= '9' || 'A' <= s[i] <= 'F'
    ensures UpperDigits(s) == s
  {
    if s == "" {
    } else {
      UpperDigitsOfDigits(s[1..]);
    }
  }

  /** Stripping the colons undoes the formatting. */
  lemma {:induction false} UpperDigitsOfColons(s: string)
    requires |s| % 2 == 0
    requires forall i :: 0 <= i < |s| ==> '0' <= s[i] <= '9' || 'A' <= s[i] <= 'F'
    ensures UpperDigits(Colons(s)) == s
  {
    if |s| <= 2 {
      UpperDigitsOfDigits(s);
    } else {
      UpperDigitsOfDigits(s[..2]);
      UpperDigitsAppend(s[..2] + ":", Colons(s[2..]));
      UpperDigitsAppend(s[..2], ":");
      UpperDigitsOfColons(s[2..]);
    }
  }

  /** A serial is canonical: normalising it again changes nothing, and it keeps every digit. */
  lemma {:induction false} NormalizeSerialCanonical(s: string)
    requires NormalizeSerial(s).Some?
    ensures UpperDigits(NormalizeSerial(s).value) == UpperDigits(s)
    ensures NormalizeSerial(NormalizeSerial(s).value) == NormalizeSerial(s)
  {
    UpperDigitsOfColons(UpperDigits(s));
  }

  lemma {:induction false} SerialOfUid(uid: seq<Byte>)
    requires |uid| == 8
    ensures NormalizeSerial(ToHex(uid)) == Some(Colons(ToHex(uid)))
    ensures UpperDigits(Colons(ToHex(uid))) == ToHex(uid)
  {
    UpperDigitsOfDigits(ToHex(uid));
    UpperDigitsOfColons(ToHex(uid));
  }

  /** Every 8-byte uid has a serial, and no two share one. */
  lemma {:induction false} UidSerial(uid: seq<Byte>, other: seq<Byte>)
    requires |uid| == |other| == 8
    ensures NormalizeSerial(ToHex(uid)).Some?
    ensures NormalizeSerial(ToHex(uid)) == NormalizeSerial(ToHex(other)) ==> uid == other
  {
    SerialOfUid(uid);
    SerialOfUid(other);
    if ToHex(uid) == ToHex(other) {
      ToHexInjective(uid, other);
    }
  }
}
