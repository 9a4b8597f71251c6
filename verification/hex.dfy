/**
 * Node's Buffer hex codec, as used to store the private key: encoding writes two
 * lower-case digits per byte; decoding reads digit pairs (either case) from the
 * left, stops at the first pair holding a non-hex character and ignores a
 * trailing odd character.
 */
module Hex {

  newtype byte = x: int | 0 <= x < 256

  const Digits: string := "0123456789abcdef"

  /** Value of a hexadecimal digit of either case, or -1. */
  function DigitValue(c: char): (v: int)
    ensures -1 <= v < 16
  {
    if '0' <= c <= '9' then c as int - '0' as int
    else if 'a' <= c <= 'f' then c as int - 'a' as int + 10
    else if 'A' <= c <= 'F' then c as int - 'A' as int + 10
    else -1
  }

  function EncodeByte(b: byte): string {
    [Digits[b as int / 16], Digits[b as int % 16]]
  }

  /** `Buffer.from(bytes).toString('hex')` */
  function Encode(bs: seq<byte>): (s: string)
    ensures |s| == 2 * |bs|
  {
    if bs == [] then [] else EncodeByte(bs[0]) + Encode(bs[1..])
  }

  /** `Buffer.from(s, 'hex')` */
  function Decode(s: string): (bs: seq<byte>)
    ensures 2 * |bs| <= |s|
  {
    if |s| < 2 then []
    else
      var hi := DigitValue(s[0]);
      var lo := DigitValue(s[1]);
      if hi < 0 || lo < 0 then [] else [(hi * 16 + lo) as byte] + Decode(s[2..])
  }

  lemma DigitsDecode(d: int)
    requires 0 <= d < 16
    ensures DigitValue(Digits[d]) == d
  {
  }

  /** Decoding the encoding of a key gives back the key byte for byte. */
  lemma {:induction false} DecodeEncode(bs: seq<byte>)
    ensures Decode(Encode(bs)) == bs
  {
    if bs != [] {
      var b := bs[0] as int;
      DigitsDecode(b / 16);
      DigitsDecode(b % 16);
      var s := Encode(bs);
      assert s == EncodeByte(bs[0]) + Encode(bs[1..]);
      assert s[2..] == Encode(bs[1..]);
      DecodeEncode(bs[1..]);
    }
  }

  /** The encoding is empty exactly when the key is, which is what the loader's truthiness test sees. */
  lemma EncodeEmpty(bs: seq<byte>)
    ensures Encode(bs) == "" <==> bs == []
  {
  }
}
