/** Lower-case hexadecimal encoding of bytes, and a decoder that accepts both cases. */
module Hex {
  import opened Wrappers

  type Byte = b: nat | b < 256

  const DIGITS := "0123456789abcdef"

  function Digit(n: nat): char
    requires n < 16
  {
    DIGITS[n]
  }

  function Nibble(c: char): Option<nat> {
    if '0' <= c <= '9' then Some((c - '0') as nat)
    else if 'a' <= c <= 'f' then Some((c - 'a') as nat + 10)
    else if 'A' <= c <= 'F' then Some((c - 'A') as nat + 10)
    else None
  }

  lemma NibbleOfDigit(n: nat)
    requires n < 16
    ensures Nibble(Digit(n)) == Some(n)
  {
  }

  lemma NibbleIsSmall(c: char)
    ensures Nibble(c).Some? ==> Nibble(c).value < 16
  {
  }

  function Encode(bytes: seq<Byte>): (s: string)
    ensures |s| == 2 * |bytes|
  {
    if bytes == [] then ""
    else [Digit(bytes[0] / 16), Digit(bytes[0] % 16)] + Encode(bytes[1..])
  }

  function Decode(s: string): (bytes: Option<seq<Byte>>)
    ensures bytes.Some? ==> 2 * |bytes.value| == |s|
  {
    if s == "" then Some([])
    else if |s| == 1 then None
    else
      match (Nibble(s[0]), Nibble(s[1]))
      case (Some(high), Some(low)) =>
        NibbleIsSmall(s[0]);
        NibbleIsSmall(s[1]);
        (match Decode(s[2..])
         case Some(rest) => Some([16 * high + low] + rest)
         case None => None)
      case _ => None
  }

  lemma PairDecodes(b: Byte, rest: string)
    ensures Decode([Digit(b / 16), Digit(b % 16)] + rest)
         == match Decode(rest) case Some(tail) => Some([b] + tail) case None => None
  {
    NibbleOfDigit(b / 16);
    NibbleOfDigit(b % 16);
    var s := [Digit(b / 16), Digit(b % 16)] + rest;
    assert s[0] == Digit(b / 16) && s[1] == Digit(b % 16) && s[2..] == rest;
    assert 16 * (b / 16) + b % 16 == b;
  }

  /** Decoding an encoding gives the bytes back. */
  lemma {:induction false} DecodeEncode(bytes: seq<Byte>)
    ensures Decode(Encode(bytes)) == Some(bytes)
  {
    if bytes != [] {
      PairDecodes(bytes[0], Encode(bytes[1..]));
      DecodeEncode(bytes[1..]);
      assert bytes == [bytes[0]] + bytes[1..];
    }
  }

  /** The digit written for a number below sixteen. */
  ghost predicate IsLowerDigit(n: nat, c: char) {
    if n < 10 then c as nat == '0' as nat + n else n < 16 && c as nat == 'a' as nat + n - 10
  }

  /** Byte `i` is written as its two digits in lower case, the high one first. */
  lemma {:induction false} EncodesInLowerCase(bytes: seq<Byte>, i: nat)
    requires i < |bytes|
    ensures IsLowerDigit(bytes[i] / 16, Encode(bytes)[2 * i])
    ensures IsLowerDigit(bytes[i] % 16, Encode(bytes)[2 * i + 1])
  {
    if i == 0 {
      DigitIsLower(bytes[0] / 16);
      DigitIsLower(bytes[0] % 16);
    } else {
      EncodesInLowerCase(bytes[1..], i - 1);
      var tail := Encode(bytes[1..]);
      assert Encode(bytes) == [Digit(bytes[0] / 16), Digit(bytes[0] % 16)] + tail;
    }
  }

  lemma DigitIsLower(n: nat)
    requires n < 16
    ensures IsLowerDigit(n, Digit(n))
  {
  }

  function LowerChar(c: char): char {
    if 'A' <= c <= 'F' then ((c - 'A') as nat + 'a' as nat) as char else c
  }

  function Lower(s: string): (r: string)
    ensures |r| == |s|
    ensures forall i :: 0 <= i < |s| ==> r[i] == LowerChar(s[i])
  {
    seq(|s|, i requires 0 <= i < |s| => LowerChar(s[i]))
  }

  lemma NibbleIsDigit(c: char, n: nat)
    requires n < 16
    ensures Nibble(c) == Some(n) <==> LowerChar(c) == Digit(n)
  {
  }

  /** An encoding has digits and the letters from a to f only. */
  lemma EncodingIsLowerCase(bytes: seq<Byte>, j: nat)
    requires j < |Encode(bytes)|
    ensures '0' <= Encode(bytes)[j] <= '9' || 'a' <= Encode(bytes)[j] <= 'f'
  {
    EncodesInLowerCase(bytes, j / 2);
  }

  lemma FirstPair(s: string, bytes: seq<Byte>)
    requires 2 <= |s| && bytes != []
    ensures Decode(s) == Some(bytes) <==>
              Nibble(s[0]) == Some(bytes[0] / 16) && Nibble(s[1]) == Some(bytes[0] % 16) && Decode(s[2..]) == Some(bytes[1..])
  {
    NibbleIsSmall(s[0]);
    NibbleIsSmall(s[1]);
    assert bytes == [bytes[0]] + bytes[1..];
    var high, low := bytes[0] / 16, bytes[0] % 16;
    assert 16 * high + low == bytes[0];
    if Decode(s) == Some(bytes) {
      assert Decode(s).value == [16 * Nibble(s[0]).value + Nibble(s[1]).value] + Decode(s[2..]).value;
    }
  }

  lemma FirstPairLower(s: string, bytes: seq<Byte>)
    requires 2 <= |s| && bytes != []
    ensures Lower(s) == Encode(bytes) <==>
              LowerChar(s[0]) == Digit(bytes[0] / 16) && LowerChar(s[1]) == Digit(bytes[0] % 16) && Lower(s[2..]) == Encode(bytes[1..])
  {
    var lower, encoded := Lower(s), Encode(bytes);
    assert lower == [LowerChar(s[0]), LowerChar(s[1])] + Lower(s[2..]);
    assert encoded == [Digit(bytes[0] / 16), Digit(bytes[0] % 16)] + Encode(bytes[1..]);
    assert lower[2..] == Lower(s[2..]) && encoded[2..] == Encode(bytes[1..]);
  }

  /** A text decodes exactly when, in lower case, it is the encoding of some bytes, and then to those. */
  lemma {:induction false} DecodesExactly(s: string, bytes: seq<Byte>)
    ensures Decode(s) == Some(bytes) <==> Lower(s) == Encode(bytes)
  {
    if 2 <= |s| && bytes != [] {
      FirstPair(s, bytes);
      FirstPairLower(s, bytes);
      NibbleIsDigit(s[0], bytes[0] / 16);
      NibbleIsDigit(s[1], bytes[0] % 16);
      DecodesExactly(s[2..], bytes[1..]);
    }
  }

  /** Different bytes have different encodings. */
  lemma EncodeIsInjective(a: seq<Byte>, b: seq<Byte>)
    requires Encode(a) == Encode(b)
    ensures a == b
  {
    DecodeEncode(a);
    DecodeEncode(b);
  }
}
