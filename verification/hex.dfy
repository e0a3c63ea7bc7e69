/**
  Lower-case hexadecimal rendering of a byte string, as Go's `fmt.Sprintf("%x", b)`
  produces it for a `[]byte`: two digits per byte, high nibble first, digits
  `0-9a-f`. `Decode` is its inverse on well-formed text.
 */
module Hex {
  import opened Options

  newtype uint8 = x: int | 0 <= x < 256

  /** The lower-case hex digits `%x` emits. */
  predicate IsDigit(ch: char)
  {
    '0' <= ch <= '9' || 'a' <= ch <= 'f'
  }

  function Digit(n: nat): (ch: char)
    requires n < 16
    ensures IsDigit(ch)
  {
    if n < 10 then ('0' as int + n) as char else ('a' as int + n - 10) as char
  }

  function DigitValue(ch: char): (r: Option<nat>)
    ensures r.Some? <==> IsDigit(ch)
    ensures r.Some? ==> r.value < 16 && Digit(r.value) == ch
  {
    if '0' <= ch <= '9' then Some(ch as int - '0' as int)
    else if 'a' <= ch <= 'f' then Some(ch as int - 'a' as int + 10)
    else None
  }

  lemma DigitValueOfDigit(n: nat)
    requires n < 16
    ensures DigitValue(Digit(n)) == Some(n)
  {
  }

  /** `%x` of a byte string: byte i becomes the digits at positions 2i (high nibble) and 2i+1 (low nibble). */
  function Encode(b: seq<uint8>): (r: string)
    ensures |r| == 2 * |b|
    ensures forall i :: 0 <= i < |r| ==> IsDigit(r[i])
  {
    if |b| == 0 then ""
    else [Digit(b[0] as int / 16), Digit(b[0] as int % 16)] + Encode(b[1..])
  }

  /** Byte i of the input is rendered at positions 2i (high nibble) and 2i+1 (low nibble). */
  lemma {:induction false} EncodeAt(b: seq<uint8>, i: nat)
    requires i < |b|
    ensures Encode(b)[2 * i] == Digit(b[i] as int / 16)
    ensures Encode(b)[2 * i + 1] == Digit(b[i] as int % 16)
  {
    if i > 0 {
      EncodeAt(b[1..], i - 1);
      var e := Encode(b);
      assert e[2..] == Encode(b[1..]);
      assert e[2 * i] == e[2..][2 * (i - 1)];
      assert e[2 * i + 1] == e[2..][2 * (i - 1) + 1];
    }
  }

  /** Parses text made of digit pairs back into bytes; fails on odd length or a non-digit. */
  function Decode(s: string): (r: Option<seq<uint8>>)
    ensures r.Some? ==> 2 * |r.value| == |s|
    decreases |s|
  {
    if |s| == 0 then Some([])
    else if |s| == 1 then None
    else
      match (DigitValue(s[0]), DigitValue(s[1]), Decode(s[2..]))
      case (Some(hi), Some(lo), Some(rest)) => Some([(hi * 16 + lo) as uint8] + rest)
      case _ => None
  }

  /** Every byte string is recovered from its rendering. */
  lemma {:induction false} DecodeEncode(b: seq<uint8>)
    ensures Decode(Encode(b)) == Some(b)
  {
    if |b| > 0 {
      var e := Encode(b);
      DecodeEncode(b[1..]);
      assert e[2..] == Encode(b[1..]);
      DigitValueOfDigit(b[0] as int / 16);
      DigitValueOfDigit(b[0] as int % 16);
      assert [b[0]] + b[1..] == b;
    }
  }

  /** Every text that decodes is the rendering of what it decodes to. */
  lemma {:induction false} EncodeDecode(s: string)
    requires Decode(s).Some?
    ensures Encode(Decode(s).value) == s
  {
    if |s| > 0 {
      var hi := DigitValue(s[0]).value;
      var lo := DigitValue(s[1]).value;
      var rest := Decode(s[2..]).value;
      EncodeDecode(s[2..]);
      var b := Decode(s).value;
      assert b == [(hi * 16 + lo) as uint8] + rest;
      assert b[1..] == rest;
      assert (hi * 16 + lo) / 16 == hi && (hi * 16 + lo) % 16 == lo;
      assert s == [s[0], s[1]] + s[2..];
    }
  }
}
