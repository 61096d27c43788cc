/**
 * Lowercase hexadecimal text of a byte string, as Go's `hex.EncodeToString`
 * produces it, together with its inverse on lowercase text.
 */
module Hex {
  import opened Wrappers

  newtype Byte = x: int | 0 <= x < 256

  predicate IsLowerHexDigit(c: char) {
    '0' <= c <= '9' || 'a' <= c <= 'f'
  }

  /** The lowercase digit for a nibble. */
  function Digit(n: int): (c: char)
    requires 0 <= n < 16
    ensures IsLowerHexDigit(c)
  {
    if n < 10 then ('0' as int + n) as char else ('a' as int + n - 10) as char
  }

  /** The nibble a lowercase digit stands for; uppercase digits are not accepted. */
  function DigitValue(c: char): (r: Option<int>)
    ensures r.Some? <==> IsLowerHexDigit(c)
    ensures r.Some? ==> 0 <= r.value < 16 && Digit(r.value) == c
  {
    if '0' <= c <= '9' then Some(c as int - '0' as int)
    else if 'a' <= c <= 'f' then Some(c as int - 'a' as int + 10)
    else None
  }

  /** Two lowercase digits per byte, high nibble first. */
  function Encode(bs: seq<Byte>): (s: string)
    ensures |s| == 2 * |bs|
    ensures forall i :: 0 <= i < |s| ==> IsLowerHexDigit(s[i])
  {
    if bs == [] then ""
    else [Digit(bs[0] as int / 16), Digit(bs[0] as int % 16)] + Encode(bs[1..])
  }

  /** The bytes of an even-length lowercase hex text; None for anything else. */
  function Decode(s: string): (r: Option<seq<Byte>>)
    decreases |s|
  {
    if |s| == 0 then Some([])
    else if |s| == 1 then None
    else
      match (DigitValue(s[0]), DigitValue(s[1]), Decode(s[2..]))
      case (Some(hi), Some(lo), Some(rest)) => Some([(hi * 16 + lo) as Byte] + rest)
      case _ => None
  }

  lemma {:induction false} DecodeEncode(bs: seq<Byte>)
    ensures Decode(Encode(bs)) == Some(bs)
  {
    if bs != [] {
      var s := Encode(bs);
      var hi, lo := bs[0] as int / 16, bs[0] as int % 16;
      assert s[2..] == Encode(bs[1..]);
      DecodeEncode(bs[1..]);
      assert DigitValue(s[0]) == Some(hi);
      assert DigitValue(s[1]) == Some(lo);
      assert (hi * 16 + lo) as Byte == bs[0];
      assert Decode(s) == Some([bs[0]] + bs[1..]);
      assert [bs[0]] + bs[1..] == bs;
    }
  }

  /** Decode accepts exactly the texts Encode produces. */
  lemma {:induction false} EncodeDecode(s: string)
    ensures Decode(s).Some? <==> (|s| % 2 == 0 && forall i :: 0 <= i < |s| ==> IsLowerHexDigit(s[i]))
    ensures Decode(s).Some? ==> Encode(Decode(s).value) == s
    decreases |s|
  {
    if |s| >= 2 {
      EncodeDecode(s[2..]);
      assert forall i :: 2 <= i < |s| ==> s[i] == s[2..][i - 2];
      if Decode(s).Some? {
        var hi, lo := DigitValue(s[0]).value, DigitValue(s[1]).value;
        var b := (hi * 16 + lo) as Byte;
        assert b as int / 16 == hi && b as int % 16 == lo;
        assert Decode(s).value == [b] + Decode(s[2..]).value;
        assert Decode(s).value[1..] == Decode(s[2..]).value;
        assert Encode(Decode(s).value) == [Digit(hi), Digit(lo)] + s[2..];
      }
    } else if |s| == 1 {
      assert !IsLowerHexDigit(s[0]) || |s| % 2 == 1;
    }
  }

  /** Encoding is injective: distinct byte strings give distinct texts. */
  lemma EncodeInjective(a: seq<Byte>, b: seq<Byte>)
    requires Encode(a) == Encode(b)
    ensures a == b
  {
    DecodeEncode(a);
    DecodeEncode(b);
  }
}
