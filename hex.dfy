/** Base16 (section 8 of RFC 4648) as the source uses it: `encode` of key/encoding.go, which
    emits lower-case digits, and the `encoding/hex` decoder the key decoders call, which
    accepts either case. Characters are the bytes of their ASCII codes. */
module Hex {
  import opened Bytes
  import opened Wrappers

  predicate IsHexDigit(c: byte) {
    48 <= c <= 57 || 65 <= c <= 70 || 97 <= c <= 102   // 0-9, A-F, a-f
  }

  predicate IsLowerHexDigit(c: byte) {
    48 <= c <= 57 || 97 <= c <= 102   // 0-9, a-f
  }

  /** The value of a hexadecimal digit of either case. */
  function DigitValue(c: byte): (v: nat)
    requires IsHexDigit(c)
    ensures v < 16
  {
    if c <= 57 then c - 48 else if c <= 70 then c - 55 else c - 87
  }

  /** The digit encoding/hex writes for a nibble: "0123456789abcdef"[n]. */
  function Digit(n: nat): (c: byte)
    requires n < 16
    ensures IsLowerHexDigit(c) && DigitValue(c) == n
  {
    if n < 10 then 48 + n else 87 + n
  }

  /** A digit with A-F replaced by a-f. */
  function LowerDigit(c: byte): (d: byte)
    requires IsHexDigit(c)
    ensures IsLowerHexDigit(d) && DigitValue(d) == DigitValue(c)
  {
    if 65 <= c <= 70 then c + 32 else c
  }

  /** The digits of s with A-F replaced by a-f. */
  function Lower(s: seq<byte>): (r: seq<byte>)
    requires forall i :: 0 <= i < |s| ==> IsHexDigit(s[i])
  {
    if s == [] then [] else [LowerDigit(s[0])] + Lower(s[1..])
  }

  /** hex.DecodedLen. */
  function DecodedLen(n: nat): nat { n / 2 }

  /** encode (key/encoding.go:5-9): two lower-case digits per byte, high nibble first. */
  function Encode(key: seq<byte>): (r: seq<byte>)
    ensures |r| == 2 * |key|
    ensures forall i :: 0 <= i < |r| ==> IsLowerHexDigit(r[i])
    ensures forall i :: 0 <= i < |key| ==> r[2 * i] == Digit(key[i] / 16) && r[2 * i + 1] == Digit(key[i] % 16)
  {
    if key == [] then []
    else
      var rest := Encode(key[1..]);
      assert forall i :: 1 <= i < |key| ==> key[1..][i - 1] == key[i];
      [Digit(key[0] / 16), Digit(key[0] % 16)] + rest
  }

  /** hex.Decode: pairs of digits left to right; the first non-digit is reported, and an
      odd trailing character is reported as the length error unless it is itself not a digit. */
  function Decode(src: seq<byte>): (r: Result<seq<byte>>)
    ensures r.Ok? <==> |src| % 2 == 0 && forall i :: 0 <= i < |src| ==> IsHexDigit(src[i])
    ensures r.Ok? ==> |r.value| == |src| / 2
    ensures r.Ok? ==> forall i :: 0 <= i < |r.value| ==>
      r.value[i] == 16 * DigitValue(src[2 * i]) + DigitValue(src[2 * i + 1])
    decreases |src|
  {
    if |src| == 0 then Ok([])
    else if |src| == 1 then
      if IsHexDigit(src[0]) then Err(OddLength) else Err(InvalidByte(src[0]))
    else if !IsHexDigit(src[0]) then Err(InvalidByte(src[0]))
    else if !IsHexDigit(src[1]) then Err(InvalidByte(src[1]))
    else
      match Decode(src[2..])
      case Err(e) => Err(e)
      case Ok(rest) =>
        assert forall i :: 2 <= i < |src| ==> src[2..][i - 2] == src[i];
        Ok([16 * DigitValue(src[0]) + DigitValue(src[1])] + rest)
  }

  lemma NibblesRecombine(b: byte)
    ensures 16 * DigitValue(Digit(b / 16)) + DigitValue(Digit(b % 16)) == b
  {
  }

  /** Decoding what encode wrote gives back the bytes. */
  lemma {:induction false} DecodeEncode(key: seq<byte>)
    ensures Decode(Encode(key)) == Ok(key)
  {
    if key != [] {
      var e := Encode(key);
      assert e[2..] == Encode(key[1..]);
      DecodeEncode(key[1..]);
      NibblesRecombine(key[0]);
      assert key == [key[0]] + key[1..];
    }
  }

  lemma SplitNibbles(hi: nat, lo: nat)
    requires hi < 16 && lo < 16
    ensures (16 * hi + lo) / 16 == hi && (16 * hi + lo) % 16 == lo
  {
  }

  lemma DigitOfValue(c: byte)
    requires IsHexDigit(c)
    ensures Digit(DigitValue(c)) == LowerDigit(c)
  {
  }

  /** Encoding what was decoded gives back the input with upper-case digits lowered: every
      accepted text is the encoding of exactly one byte string, up to case. */
  lemma {:induction false} EncodeDecode(src: seq<byte>)
    requires Decode(src).Ok?
    ensures Encode(Decode(src).value) == Lower(src)
    decreases |src|
  {
    if src != [] {
      var rest := src[2..];
      var hi, lo := DigitValue(src[0]), DigitValue(src[1]);
      DecodeFirstPair(src);
      EncodeDecode(rest);
      SplitNibbles(hi, lo);
      DigitOfValue(src[0]);
      DigitOfValue(src[1]);
      EncodeCons(16 * hi + lo, Decode(rest).value);
      LowerFirstPair(src);
    }
  }

  /** A decoded text of two or more digits: the byte of its first pair, then the rest. */
  lemma DecodeFirstPair(src: seq<byte>)
    requires Decode(src).Ok? && src != []
    ensures |src| >= 2 && Decode(src[2..]).Ok?
    ensures Decode(src).value == [16 * DigitValue(src[0]) + DigitValue(src[1])] + Decode(src[2..]).value
  {
    assert |src| % 2 == 0 && forall i :: 0 <= i < |src| ==> IsHexDigit(src[i]);
    var rest := src[2..];
    assert forall i :: 0 <= i < |rest| ==> IsHexDigit(rest[i]) by {
      assert forall i :: 0 <= i < |rest| ==> rest[i] == src[i + 2];
    }
    assert Decode(rest).Ok?;
  }

  lemma EncodeCons(b: byte, rest: seq<byte>)
    ensures Encode([b] + rest) == [Digit(b / 16), Digit(b % 16)] + Encode(rest)
  {
    assert ([b] + rest)[1..] == rest;
  }

  lemma LowerFirstPair(src: seq<byte>)
    requires |src| >= 2 && forall i :: 0 <= i < |src| ==> IsHexDigit(src[i])
    ensures Lower(src) == [LowerDigit(src[0]), LowerDigit(src[1])] + Lower(src[2..])
  {
    var t := src[1..];
    assert forall i :: 0 <= i < |t| ==> t[i] == src[i + 1];
    assert Lower(t) == [LowerDigit(t[0])] + Lower(t[1..]);
    assert t[1..] == src[2..];
  }

  /** The shape all key decoders of the source share: unless hex.DecodedLen of the length
      is n, a "malformed <what>" error; otherwise hex.Decode, whose error is passed on. On
      any error the key is the zero key of n bytes. An odd length whose half rounds down to
      n passes the first check and fails in hex.Decode, so success means exactly 2n digits. */
  function DecodeKey(buf: seq<byte>, n: nat, what: string): (r: Ret<seq<byte>>)
    ensures |r.value| == n
    ensures r.err.None? <==> |buf| == 2 * n && forall i :: 0 <= i < |buf| ==> IsHexDigit(buf[i])
    ensures DecodedLen(|buf|) != n ==> r.err == Some(MalformedKey(what, n, DecodedLen(|buf|)))
    ensures DecodedLen(|buf|) == n && r.err.Some? ==> Decode(buf).Err? && r.err == Some(Decode(buf).error)
    ensures r.err.Some? ==> r.value == Zeros(n)
    ensures r.err.None? ==> forall i :: 0 <= i < n ==>
      r.value[i] == 16 * DigitValue(buf[2 * i]) + DigitValue(buf[2 * i + 1])
  {
    if DecodedLen(|buf|) != n then Ret(Zeros(n), Some(MalformedKey(what, n, DecodedLen(|buf|))))
    else
      match Decode(buf)
      case Err(e) => Ret(Zeros(n), Some(e))
      case Ok(key) => Ret(key, None)
  }

  /** A key decoder reads back what encode wrote. */
  lemma DecodeKeyEncode(key: seq<byte>, what: string)
    ensures DecodeKey(Encode(key), |key|, what) == Ret(key, None)
  {
    DecodeEncode(key);
  }

  /** What a key decoder accepts is the encoding of the key it returns, up to the case of
      the digits. */
  lemma EncodeDecodeKey(buf: seq<byte>, n: nat, what: string)
    requires DecodeKey(buf, n, what).err.None?
    ensures Encode(DecodeKey(buf, n, what).value) == Lower(buf)
  {
    EncodeDecode(buf);
  }
}
