/** Base16 as in section 8 of RFC 4648, written with lowercase digits as
    `Buffer.toString('hex')` does, and read back as `Buffer.from(s, 'hex')` does:
    digits of either case, pair by pair, stopping at the first pair that is not
    two hex digits (so a trailing odd digit is dropped). */
module Hex {
  import opened Primitives

  /** A digit of the lowercase base16 alphabet. */
  predicate IsLowerDigit(c: char) {
    '0' <= c <= '9' || 'a' <= c <= 'f'
  }

  /** The value of one hex digit of either case. */
  function DigitValue(c: char): (v: Option<nat>)
    ensures v.Some? ==> v.value < 16
    ensures v.Some? <==> IsLowerDigit(c) || 'A' <= c <= 'F'
  {
    if '0' <= c <= '9' then Some(c as int - '0' as int)
    else if 'a' <= c <= 'f' then Some(c as int - 'a' as int + 10)
    else if 'A' <= c <= 'F' then Some(c as int - 'A' as int + 10)
    else None
  }

  /** The lowercase digit for a value below 16; it reads back as that value. */
  function Digit(n: nat): (c: char)
    requires n < 16
    ensures IsLowerDigit(c)
    ensures DigitValue(c) == Some(n)
  {
    if n < 10 then ('0' as int + n) as char else ('a' as int + n - 10) as char
  }

  /** Two lowercase digits per byte, high half first. */
  function Encode(b: seq<byte>): (s: string)
    ensures |s| == 2 * |b|
    ensures forall i :: 0 <= i < |s| ==> IsLowerDigit(s[i])
  {
    if b == [] then []
    else [Digit(b[0] as int / 16), Digit(b[0] as int % 16)] + Encode(b[1..])
  }

  function Decode(s: string): (b: seq<byte>)
    ensures |b| <= |s| / 2
  {
    if |s| < 2 then []
    else
      var hi, lo := DigitValue(s[0]), DigitValue(s[1]);
      if hi.None? || lo.None? then []
      else [(hi.value * 16 + lo.value) as byte] + Decode(s[2..])
  }

  /** The digits of byte `i` sit at positions `2i` and `2i + 1`. */
  lemma {:induction false} EncodeAt(b: seq<byte>, i: nat)
    requires i < |b|
    ensures Encode(b)[2 * i] == Digit(b[i] as int / 16)
    ensures Encode(b)[2 * i + 1] == Digit(b[i] as int % 16)
  {
    if i > 0 {
      EncodeAt(b[1..], i - 1);
      assert Encode(b)[2..] == Encode(b[1..]);
    }
  }

  /** Reading two digits in front of `rest` gives their byte in front of what
      `rest` reads as. */
  lemma DecodePair(hi: nat, lo: nat, rest: string)
    requires hi < 16 && lo < 16
    ensures Decode([Digit(hi), Digit(lo)] + rest) == [(hi * 16 + lo) as byte] + Decode(rest)
  {
    var s := [Digit(hi), Digit(lo)] + rest;
    assert s[0] == Digit(hi) && s[1] == Digit(lo) && s[2..] == rest;
  }

  /** Decoding undoes encoding. */
  lemma {:induction false} DecodeEncode(b: seq<byte>)
    ensures Decode(Encode(b)) == b
  {
    if b != [] {
      var hi, lo := b[0] as int / 16, b[0] as int % 16;
      assert Encode(b) == [Digit(hi), Digit(lo)] + Encode(b[1..]);
      DecodePair(hi, lo, Encode(b[1..]));
      DecodeEncode(b[1..]);
      assert b == [(hi * 16 + lo) as byte] + b[1..];
    }
  }

  /** Distinct byte strings have distinct encodings. */
  lemma EncodeInjective(a: seq<byte>, b: seq<byte>)
    requires Encode(a) == Encode(b)
    ensures a == b
  {
    DecodeEncode(a);
    DecodeEncode(b);
  }
}
