/**
 Percent-encoding as Python's `urllib.parse.quote(s)` (default `safe='/'`) and
 `urllib.parse.unquote(s)` (UTF-8, `errors='replace'`) compute it.
 The unreserved set is the one of section 2.3 of RFC 3986; a percent-encoded
 octet is `%` followed by two hexadecimal digits (section 2.1 of RFC 3986),
 written with upper-case digits by `quote` and accepted in either case by `unquote`.
 */
module Percent {
  import opened Utf8
  import PyStr

  /** Section 2.3 of RFC 3986: ALPHA / DIGIT / "-" / "." / "_" / "~". */
  predicate IsUnreserved(c: char) {
    || ('A' <= c <= 'Z') || ('a' <= c <= 'z') || ('0' <= c <= '9')
    || c == '-' || c == '.' || c == '_' || c == '~'
  }

  /** Characters `quote` leaves alone with its default `safe='/'`. */
  predicate IsQuoteSafe(c: char) {
    IsUnreserved(c) || c == '/'
  }

  predicate IsHexDigit(c: char) {
    ('0' <= c <= '9') || ('a' <= c <= 'f') || ('A' <= c <= 'F')
  }

  /** The digits `quote` writes. */
  predicate IsUpperHexDigit(c: char) {
    ('0' <= c <= '9') || ('A' <= c <= 'F')
  }

  function HexValue(c: char): (v: int)
    requires IsHexDigit(c)
    ensures 0 <= v < 16
  {
    if '0' <= c <= '9' then c as int - '0' as int
    else if 'a' <= c <= 'f' then c as int - 'a' as int + 10
    else c as int - 'A' as int + 10
  }

  /** The upper-case hexadecimal digit for `n`. */
  function HexDigit(n: int): (c: char)
    requires 0 <= n < 16
    ensures IsHexDigit(c) && IsUpperHexDigit(c) && HexValue(c) == n
  {
    if n < 10 then ('0' as int + n) as char else ('A' as int + n - 10) as char
  }

  /** `%XX` for one octet. */
  function EscapeByte(b: byte): (e: string)
    ensures |e| == 3 && e[0] == '%' && IsUpperHexDigit(e[1]) && IsUpperHexDigit(e[2])
    ensures HexValue(e[1]) * 16 + HexValue(e[2]) == b
  {
    ['%', HexDigit(b / 16), HexDigit(b % 16)]
  }

  /** An octet that `quote` copies: the ASCII code of a safe character. */
  predicate IsSafeByte(b: byte) {
    b < 0x80 && IsQuoteSafe(b as char)
  }

  /** `quote_from_bytes(bs, safe='/')`: safe octets are copied, every other octet becomes `%XX`. */
  function QuoteBytes(bs: seq<byte>): (e: string)
    ensures |e| >= |bs|
    ensures |e| == |bs| <==> forall k :: 0 <= k < |bs| ==> IsSafeByte(bs[k])
  {
    if bs == [] then ""
    else (if IsSafeByte(bs[0]) then [bs[0] as char] else EscapeByte(bs[0])) + QuoteBytes(bs[1..])
  }

  /** `urllib.parse.quote(s)`: the string is encoded as UTF-8 first. */
  function Quote(s: string): string {
    QuoteBytes(Encode(s))
  }

  /** `unquote_to_bytes`: `%` with two hex digits becomes one octet, anything else is copied as UTF-8. */
  function UnquoteToBytes(s: string): seq<byte>
    decreases |s|
  {
    if s == [] then []
    else if s[0] == '%' && |s| >= 3 && IsHexDigit(s[1]) && IsHexDigit(s[2]) then
      [HexValue(s[1]) * 16 + HexValue(s[2])] + UnquoteToBytes(s[3..])
    else
      EncodeChar(s[0]) + UnquoteToBytes(s[1..])
  }

  predicate IsAscii(c: char) {
    c as int < 0x80
  }

  /** Length of the longest prefix of `s` made of ASCII characters. */
  function AsciiRunLength(s: string): (n: nat)
    ensures n <= |s|
    ensures forall k :: 0 <= k < n ==> IsAscii(s[k])
    ensures n < |s| ==> !IsAscii(s[n])
  {
    if s == [] || !IsAscii(s[0]) then 0 else 1 + AsciiRunLength(s[1..])
  }

  /** The loop of `unquote`: non-ASCII characters are kept, each maximal ASCII run is unquoted to bytes and decoded. */
  function DecodeRuns(s: string): string
    decreases |s|
  {
    if s == [] then ""
    else if !IsAscii(s[0]) then [s[0]] + DecodeRuns(s[1..])
    else
      var n := AsciiRunLength(s);
      Decode(UnquoteToBytes(s[..n])) + DecodeRuns(s[n..])
  }

  /** `urllib.parse.unquote(s)`; a string without `%` is returned as it is. */
  function Unquote(s: string): (r: string)
    ensures !PyStr.Contains(s, "%") ==> r == s
  {
    if !PyStr.Contains(s, "%") then s else DecodeRuns(s)
  }

  /** The shape of `quote`'s output: safe characters and `%XX` triples with upper-case digits. */
  predicate WellEncoded(e: string)
    decreases |e|
  {
    || e == []
    || (IsQuoteSafe(e[0]) && WellEncoded(e[1..]))
    || (|e| >= 3 && e[0] == '%' && IsUpperHexDigit(e[1]) && IsUpperHexDigit(e[2]) && WellEncoded(e[3..]))
  }

  lemma QuoteBytesCons(b: byte, bs: seq<byte>)
    ensures QuoteBytes([b] + bs) == (if IsSafeByte(b) then [b as char] else EscapeByte(b)) + QuoteBytes(bs)
  {
    assert ([b] + bs)[1..] == bs;
  }

  /** Everything `quote` produces is well encoded and ASCII. */
  lemma {:induction false} QuoteBytesWellEncoded(bs: seq<byte>)
    ensures WellEncoded(QuoteBytes(bs))
    ensures forall k :: 0 <= k < |QuoteBytes(bs)| ==> IsAscii(QuoteBytes(bs)[k])
  {
    if bs != [] {
      var head := if IsSafeByte(bs[0]) then [bs[0] as char] else EscapeByte(bs[0]);
      var tail := QuoteBytes(bs[1..]);
      QuoteBytesWellEncoded(bs[1..]);
      assert QuoteBytes(bs) == head + tail;
      if IsSafeByte(bs[0]) {
        assert (head + tail)[1..] == tail;
      } else {
        assert (head + tail)[3..] == tail;
      }
    }
  }

  /** `unquote_to_bytes` undoes `quote_from_bytes`. */
  lemma {:induction false} UnquoteQuoteBytes(bs: seq<byte>)
    ensures UnquoteToBytes(QuoteBytes(bs)) == bs
  {
    if bs != [] {
      var tail := QuoteBytes(bs[1..]);
      UnquoteQuoteBytes(bs[1..]);
      if IsSafeByte(bs[0]) {
        var e := [bs[0] as char] + tail;
        assert e[1..] == tail;
        assert e[0] != '%';
      } else {
        var e := EscapeByte(bs[0]) + tail;
        assert e[3..] == tail;
        assert e[0] == '%' && e[1] == EscapeByte(bs[0])[1] && e[2] == EscapeByte(bs[0])[2];
      }
      assert bs == [bs[0]] + bs[1..];
    }
  }

  lemma {:induction false} DecodeRunsAscii(s: string)
    requires s != [] && forall k :: 0 <= k < |s| ==> IsAscii(s[k])
    ensures DecodeRuns(s) == Decode(UnquoteToBytes(s))
  {
    var n := AsciiRunLength(s);
    assert n == |s|;
    assert s[..n] == s && s[n..] == [];
  }

  /** `unquote(quote(s)) == s` for every string. */
  lemma UnquoteQuote(s: string)
    ensures Unquote(Quote(s)) == s
  {
    var e := Quote(s);
    QuoteBytesWellEncoded(Encode(s));
    UnquoteQuoteBytes(Encode(s));
    DecodeEncode(s);
    if PyStr.Contains(e, "%") {
      DecodeRunsAscii(e);
    } else {
      NoPercentCopied(e);
    }
  }

  /** Without a `%`, every octet of ASCII text is copied, so decoding gives the text back. */
  lemma NoPercentCopied(e: string)
    requires forall k :: 0 <= k < |e| ==> IsAscii(e[k])
    requires !PyStr.Contains(e, "%")
    ensures Decode(UnquoteToBytes(e)) == e
  {
    PyStr.ContainsIff(e, "%");
    forall k | 0 <= k < |e| ensures e[k] != '%' {
      if e[k] == '%' {
        assert PyStr.OccursAt(e, "%", k);
      }
    }
    UnquoteToBytesNoPercent(e);
  }

  /** Without `%`, `unquote_to_bytes` followed by decoding is the identity on ASCII text. */
  lemma {:induction false} UnquoteToBytesNoPercent(e: string)
    requires forall k :: 0 <= k < |e| ==> IsAscii(e[k]) && e[k] != '%'
    ensures Decode(UnquoteToBytes(e)) == e
  {
    if e != [] {
      UnquoteToBytesNoPercent(e[1..]);
      assert UnquoteToBytes(e) == [e[0] as int] + UnquoteToBytes(e[1..]);
      assert Decode(UnquoteToBytes(e)) == [e[0]] + Decode(UnquoteToBytes(e[1..])) by {
        assert ([e[0] as int] + UnquoteToBytes(e[1..]))[1..] == UnquoteToBytes(e[1..]);
      }
    }
  }

  /** `quote` changes nothing exactly when every character is unreserved or `/`. */
  lemma QuoteIdentityIff(s: string)
    ensures Quote(s) == s <==> forall k :: 0 <= k < |s| ==> IsQuoteSafe(s[k])
  {
    if forall k :: 0 <= k < |s| ==> IsQuoteSafe(s[k]) {
      QuoteSafeIdentity(s);
    }
    if Quote(s) == s {
      EncodeLength(s);
      var bs := Encode(s);
      assert |QuoteBytes(bs)| == |s| <= |bs|;
      assert forall k :: 0 <= k < |bs| ==> IsSafeByte(bs[k]);
      EncodeAllAscii(s);
    }
  }

  lemma {:induction false} QuoteSafeIdentity(s: string)
    requires forall k :: 0 <= k < |s| ==> IsQuoteSafe(s[k])
    ensures Quote(s) == s
  {
    if s != [] {
      QuoteSafeIdentity(s[1..]);
      var c := s[0];
      assert EncodeChar(c) == [c as int];
      assert Encode(s) == [c as int] + Encode(s[1..]);
      QuoteBytesCons(c as int, Encode(s[1..]));
    }
  }

  /** `|Encode(s)| == |s|` exactly when `s` is ASCII. */
  lemma {:induction false} EncodeLength(s: string)
    ensures |Encode(s)| == |s| <==> forall k :: 0 <= k < |s| ==> IsAscii(s[k])
  {
    if s != [] {
      EncodeLength(s[1..]);
      assert |Encode(s)| == |EncodeChar(s[0])| + |Encode(s[1..])|;
      if forall k :: 0 <= k < |s| ==> IsAscii(s[k]) {
        assert forall k :: 0 <= k < |s[1..]| ==> IsAscii(s[1..][k]) by {
          forall k | 0 <= k < |s[1..]| ensures IsAscii(s[1..][k]) {
            assert s[1..][k] == s[k + 1];
          }
        }
      }
      if |Encode(s)| == |s| {
        forall k | 0 <= k < |s| ensures IsAscii(s[k]) {
          if k > 0 {
            assert s[k] == s[1..][k - 1];
          }
        }
      }
    }
  }

  /** When `s` is ASCII and all its octets are safe, all its characters are safe. */
  lemma {:induction false} EncodeAllAscii(s: string)
    requires forall k :: 0 <= k < |s| ==> IsAscii(s[k])
    requires forall k :: 0 <= k < |Encode(s)| ==> IsSafeByte(Encode(s)[k])
    ensures forall k :: 0 <= k < |s| ==> IsQuoteSafe(s[k])
  {
    if s != [] {
      var rest := Encode(s[1..]);
      assert Encode(s) == [s[0] as int] + rest;
      assert IsSafeByte(Encode(s)[0]);
      assert forall k :: 0 <= k < |rest| ==> rest[k] == Encode(s)[k + 1];
      EncodeAllAscii(s[1..]);
      forall k | 0 <= k < |s| ensures IsQuoteSafe(s[k]) {
        if k > 0 {
          assert s[k] == s[1..][k - 1];
        }
      }
    }
  }
}
