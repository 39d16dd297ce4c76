/**
  Lower-case hexadecimal, as digests are written in proofs and in the ledger.
  Reading accepts both cases, and rejects odd lengths and foreign characters.
 */
module Hex {
  import opened Basics

  function Digit(n: Byte): char
    requires n < 16
  {
    if n == 0 then '0' else if n == 1 then '1' else if n == 2 then '2' else if n == 3 then '3'
    else if n == 4 then '4' else if n == 5 then '5' else if n == 6 then '6' else if n == 7 then '7'
    else if n == 8 then '8' else if n == 9 then '9' else if n == 10 then 'a' else if n == 11 then 'b'
    else if n == 12 then 'c' else if n == 13 then 'd' else if n == 14 then 'e' else 'f'
  }

  function Value(c: char): Option<Byte> {
    match c
    case '0' => Some(0) case '1' => Some(1) case '2' => Some(2) case '3' => Some(3)
    case '4' => Some(4) case '5' => Some(5) case '6' => Some(6) case '7' => Some(7)
    case '8' => Some(8) case '9' => Some(9)
    case 'a' => Some(10) case 'b' => Some(11) case 'c' => Some(12)
    case 'd' => Some(13) case 'e' => Some(14) case 'f' => Some(15)
    case 'A' => Some(10) case 'B' => Some(11) case 'C' => Some(12)
    case 'D' => Some(13) case 'E' => Some(14) case 'F' => Some(15)
    case _ => None
  }

  function Encode(bytes: Bytes): string {
    if bytes == [] then []
    else [Digit(bytes[0] >> 4), Digit(bytes[0] & 15)] + Encode(bytes[1..])
  }

  function Decode(text: string): Option<Bytes> {
    if |text| == 0 then Some([])
    else if |text| == 1 then None
    else
      match (Value(text[0]), Value(text[1]), Decode(text[2..]))
      case (Some(high), Some(low), Some(rest)) => Some([(high << 4) | low] + rest)
      case _ => None
  }

  lemma DigitRoundTrip(n: Byte)
    requires n < 16
    ensures Value(Digit(n)) == Some(n)
  {
  }

  /** The digits, by their values. */
  const LOWER: string := "0123456789abcdef"

  const UPPER: string := "0123456789ABCDEF"

  predicate IsDigit(c: char, n: int) {
    0 <= n < 16 && (c == LOWER[n] || c == UPPER[n])
  }

  lemma DigitIs(n: Byte)
    requires n < 16
    ensures Digit(n) == LOWER[n as int]
  {
  }

  lemma ValueIs(c: char, n: Byte)
    ensures Value(c) == Some(n) <==> IsDigit(c, n as int)
  {
  }

  lemma HalvesOf(b: Byte)
    ensures (b >> 4) as int == b as int / 16 && (b & 15) as int == b as int % 16
  {
  }

  lemma HalvesMake(high: Byte, low: Byte)
    requires high < 16 && low < 16
    ensures ((high << 4) | low) >> 4 == high && ((high << 4) | low) & 15 == low
  {
  }

  lemma HalvesAgain(b: Byte)
    ensures ((b >> 4) << 4) | (b & 15) == b
  {
  }

  /** Each byte is written as two lower-case digits, the higher one first. */
  lemma {:induction false} WrittenAt(bytes: Bytes, k: nat)
    requires k < |bytes|
    ensures |Encode(bytes)| == 2 * |bytes|
    ensures Encode(bytes)[2 * k] == LOWER[bytes[k] as int / 16]
    ensures Encode(bytes)[2 * k + 1] == LOWER[bytes[k] as int % 16]
  {
    HalvesOf(bytes[0]);
    DigitIs(bytes[0] >> 4);
    DigitIs(bytes[0] & 15);
    if |bytes| > 1 {
      WrittenAt(bytes[1..], if k > 0 then k - 1 else 0);
    }
  }

  /** The text is two digits for each byte, in either case, the higher one first. */
  predicate Denotes(text: string, bytes: Bytes) {
    && |text| == 2 * |bytes|
    && forall k :: 0 <= k < |bytes| ==>
         IsDigit(text[2 * k], bytes[k] as int / 16) && IsDigit(text[2 * k + 1], bytes[k] as int % 16)
  }

  lemma DenotesFirst(text: string, bytes: Bytes)
    requires |text| >= 2 && bytes != []
    ensures Denotes(text, bytes) <==>
            IsDigit(text[0], bytes[0] as int / 16) && IsDigit(text[1], bytes[0] as int % 16)
            && Denotes(text[2..], bytes[1..])
  {
    if Denotes(text[2..], bytes[1..]) {
      forall k | 1 <= k < |bytes|
        ensures IsDigit(text[2 * k], bytes[k] as int / 16) && IsDigit(text[2 * k + 1], bytes[k] as int % 16)
      {
        assert text[2 * k] == text[2..][2 * (k - 1)] && bytes[k] == bytes[1..][k - 1];
        assert text[2 * k + 1] == text[2..][2 * (k - 1) + 1];
      }
    }
    if Denotes(text, bytes) {
      forall k | 0 <= k < |bytes[1..]|
        ensures IsDigit(text[2..][2 * k], bytes[1..][k] as int / 16)
        ensures IsDigit(text[2..][2 * k + 1], bytes[1..][k] as int % 16)
      {
        assert text[2..][2 * k] == text[2 * (k + 1)] && bytes[1..][k] == bytes[k + 1];
        assert text[2..][2 * k + 1] == text[2 * (k + 1) + 1];
      }
    }
  }

  lemma FirstByte(high: char, low: char, b: Byte)
    ensures IsDigit(high, b as int / 16) && IsDigit(low, b as int % 16) <==>
            Value(high).Some? && Value(low).Some? && (Value(high).value << 4) | Value(low).value == b
  {
    HalvesOf(b);
    ValueIs(high, b >> 4);
    ValueIs(low, b & 15);
    HalvesAgain(b);
    if Value(high).Some? && Value(low).Some? {
      ValueIs(high, Value(high).value);
      ValueIs(low, Value(low).value);
      HalvesMake(Value(high).value, Value(low).value);
    }
  }

  /** Exactly the texts that denote some bytes are read, and as those bytes. */
  lemma {:induction false} DecodeIff(text: string, bytes: Bytes)
    ensures Decode(text) == Some(bytes) <==> Denotes(text, bytes)
    decreases |text|
  {
    if |text| >= 2 && bytes != [] {
      DecodeIff(text[2..], bytes[1..]);
      DenotesFirst(text, bytes);
      FirstByte(text[0], text[1], bytes[0]);
      assert bytes == [bytes[0]] + bytes[1..];
    }
  }

  /** Reading what was written gives the bytes back. */
  lemma {:induction false} RoundTrip(bytes: Bytes)
    ensures Decode(Encode(bytes)) == Some(bytes)
  {
    if bytes != [] {
      var b := bytes[0];
      var text := Encode(bytes);
      DigitRoundTrip(b >> 4);
      DigitRoundTrip(b & 15);
      assert text[0] == Digit(b >> 4) && text[1] == Digit(b & 15) && text[2..] == Encode(bytes[1..]);
      assert ((b >> 4) << 4) | (b & 15) == b;
      RoundTrip(bytes[1..]);
      assert [b] + bytes[1..] == bytes;
    }
  }

  /** A digest field as the verifier reads it: 64 hexadecimal characters. */
  function ParseDigest(text: string): Option<Digest> {
    match Decode(text)
    case Some(bytes) => if |bytes| == 32 then Some(bytes) else None
    case None => None
  }

  /** Exactly the 64-digit texts are read. */
  lemma ParseDigestIff(text: string, d: Digest)
    ensures ParseDigest(text) == Some(d) <==> Denotes(text, d)
  {
    DecodeIff(text, d);
  }

  lemma DenotesOne(text: string, d: Digest, e: Digest)
    requires Denotes(text, d) && Denotes(text, e)
    ensures d == e
  {
    DecodeIff(text, d);
    DecodeIff(text, e);
  }

  lemma ParseWritten(d: Digest)
    ensures ParseDigest(Encode(d)) == Some(d)
  {
    RoundTrip(d);
  }
}
