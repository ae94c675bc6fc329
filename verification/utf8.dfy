/**
 UTF-8 as Python's `str.encode('utf-8')` and `bytes.decode('utf-8', errors='replace')`
 compute it. Decoding replaces each maximal ill-formed subpart by U+FFFD, which is
 what CPython's decoder does with the `replace` error handler.
 */
module Utf8 {

  type byte = b: int | 0 <= b < 256

  /** U+FFFD, the character the `replace` error handler inserts. */
  const Replacement: char := '\U{FFFD}'

  /** The UTF-8 encoding of one Unicode scalar value. */
  function EncodeChar(c: char): (bs: seq<byte>)
    ensures 1 <= |bs| <= 4
    ensures |bs| == 1 <==> (c as int) < 0x80
    ensures |bs| == 1 ==> bs[0] == c as int
    ensures |bs| > 1 ==> forall k :: 0 <= k < |bs| ==> bs[k] >= 0x80
  {
    var cp := c as int;
    if cp < 0x80 then
      [cp]
    else if cp < 0x800 then
      [0xC0 + cp / 64, 0x80 + cp % 64]
    else if cp < 0x10000 then
      var lo := cp % 4096;
      [0xE0 + cp / 4096, 0x80 + lo / 64, 0x80 + lo % 64]
    else
      var mid := cp % 262144;
      var lo := mid % 4096;
      [0xF0 + cp / 262144, 0x80 + mid / 4096, 0x80 + lo / 64, 0x80 + lo % 64]
  }

  /** The UTF-8 encoding of a string. */
  function Encode(s: string): (bs: seq<byte>)
    ensures |bs| >= |s|
  {
    if s == [] then [] else EncodeChar(s[0]) + Encode(s[1..])
  }

  predicate IsContinuation(b: byte) {
    0x80 <= b < 0xC0
  }

  /**
   Decodes the character at the start of `bs` and says how many bytes it used.
   An ill-formed start yields U+FFFD and consumes the longest prefix that could
   still have begun a well-formed sequence (at least one byte).
   */
  function DecodeOne(bs: seq<byte>): (r: (char, nat))
    requires |bs| > 0
    ensures 1 <= r.1 <= |bs| && r.1 <= 4
    ensures bs[0] < 0x80 ==> r == (bs[0] as char, 1)
  {
    var b0: int := bs[0];
    if b0 < 0x80 then
      (b0 as char, 1)
    else if 0xC2 <= b0 < 0xE0 then
      if |bs| >= 2 && IsContinuation(bs[1]) then
        (((b0 - 0xC0) * 64 + (bs[1] as int - 0x80)) as char, 2)
      else
        (Replacement, 1)
    else if 0xE0 <= b0 < 0xF0 then
      var lo := if b0 == 0xE0 then 0xA0 else 0x80;
      var hi := if b0 == 0xED then 0xA0 else 0xC0;
      if |bs| < 2 || !(lo <= bs[1] < hi) then
        (Replacement, 1)
      else if |bs| < 3 || !IsContinuation(bs[2]) then
        (Replacement, 2)
      else
        (((b0 - 0xE0) * 4096 + (bs[1] as int - 0x80) * 64 + (bs[2] as int - 0x80)) as char, 3)
    else if 0xF0 <= b0 < 0xF5 then
      var lo := if b0 == 0xF0 then 0x90 else 0x80;
      var hi := if b0 == 0xF4 then 0x90 else 0xC0;
      if |bs| < 2 || !(lo <= bs[1] < hi) then
        (Replacement, 1)
      else if |bs| < 3 || !IsContinuation(bs[2]) then
        (Replacement, 2)
      else if |bs| < 4 || !IsContinuation(bs[3]) then
        (Replacement, 3)
      else
        (((b0 - 0xF0) * 262144 + (bs[1] as int - 0x80) * 4096 + (bs[2] as int - 0x80) * 64 + (bs[3] as int - 0x80)) as char, 4)
    else
      (Replacement, 1)
  }

  /** `bytes.decode('utf-8', errors='replace')`. */
  function Decode(bs: seq<byte>): (s: string)
    ensures |s| <= |bs|
    decreases |bs|
  {
    if bs == [] then [] else
      var (c, n) := DecodeOne(bs);
      [c] + Decode(bs[n..])
  }

  /** Decoding the encoding of one character, followed by anything, gives that character back first. */
  lemma DecodeOneEncodeChar(c: char, rest: seq<byte>)
    ensures DecodeOne(EncodeChar(c) + rest) == (c, |EncodeChar(c)|)
  {
    var cp := c as int;
    if cp < 0x80 {
      assert (EncodeChar(c) + rest)[0] == cp;
    } else if cp < 0x800 {
      DecodeTwoBytes(c, rest);
    } else if cp < 0x10000 {
      DecodeThreeBytes(c, rest);
    } else {
      DecodeFourBytes(c, rest);
    }
  }

  lemma DecodeTwoBytes(c: char, rest: seq<byte>)
    requires 0x80 <= c as int < 0x800
    ensures DecodeOne(EncodeChar(c) + rest) == (c, 2)
  {
    var cp := c as int;
    var bs := EncodeChar(c) + rest;
    assert bs[0] == 0xC0 + cp / 64 && bs[1] == 0x80 + cp % 64;
  }

  lemma DecodeThreeBytes(c: char, rest: seq<byte>)
    requires 0x800 <= c as int < 0x10000
    ensures DecodeOne(EncodeChar(c) + rest) == (c, 3)
  {
    var cp := c as int;
    var bs := EncodeChar(c) + rest;
    var lo := cp % 4096;
    assert bs[0] == 0xE0 + cp / 4096 && bs[1] == 0x80 + lo / 64 && bs[2] == 0x80 + lo % 64;
  }

  lemma DecodeFourBytes(c: char, rest: seq<byte>)
    requires 0x10000 <= c as int
    ensures DecodeOne(EncodeChar(c) + rest) == (c, 4)
  {
    var cp := c as int;
    var bs := EncodeChar(c) + rest;
    var mid := cp % 262144;
    var lo := mid % 4096;
    assert bs[0] == 0xF0 + cp / 262144 && bs[1] == 0x80 + mid / 4096;
    assert bs[2] == 0x80 + lo / 64 && bs[3] == 0x80 + lo % 64;
  }

  /** Decoding undoes encoding: `s.encode('utf-8').decode('utf-8', 'replace') == s`. */
  lemma {:induction false} DecodeEncode(s: string)
    ensures Decode(Encode(s)) == s
  {
    if s != [] {
      var e := EncodeChar(s[0]);
      var rest := Encode(s[1..]);
      DecodeOneEncodeChar(s[0], rest);
      assert (e + rest)[|e|..] == rest;
      DecodeEncode(s[1..]);
    }
  }

  /** A byte string below 0x80 decodes byte by byte to the same code points. */
  lemma {:induction false} DecodeAscii(bs: seq<byte>)
    requires forall k :: 0 <= k < |bs| ==> bs[k] < 0x80
    ensures |Decode(bs)| == |bs|
    ensures forall k :: 0 <= k < |bs| ==> Decode(bs)[k] as int == bs[k]
  {
    if bs != [] {
      DecodeAscii(bs[1..]);
    }
  }
}
