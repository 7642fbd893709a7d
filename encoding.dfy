/** The byte-level encodings the BingX signer relies on: `str.encode("utf8")`,
    `hexdigest()` (lowercase hexadecimal) and `urllib.parse.urlencode` with its default
    `quote_plus` quoting. Each comes with the inverse a verifier on the other end uses,
    and a round-trip lemma tying the two together. */
module Encoding {
  import opened Wrappers
  import opened Text

  type byte = b: int | 0 <= b < 256

  // ---------------------------------------------------------------------------
  // UTF-8 (RFC 3629), as `str.encode("utf8")` produces it.

  predicate IsContinuation(b: byte) { 0x80 <= b < 0xC0 }

  /** The UTF-8 bytes of one Unicode scalar value. */
  function Utf8Char(c: char): (r: seq<byte>)
    ensures 1 <= |r| <= 4
    // the lead byte announces the length, the rest are continuation bytes
    ensures |r| == 1 <==> r[0] < 0x80
    ensures |r| == 2 <==> 0xC0 <= r[0] < 0xE0
    ensures |r| == 3 <==> 0xE0 <= r[0] < 0xF0
    ensures |r| == 4 <==> 0xF0 <= r[0] < 0xF8
    ensures forall k :: 1 <= k < |r| ==> IsContinuation(r[k])
  {
    var n := c as int;
    if n < 0x80 then [n]
    else if n < 0x800 then [0xC0 + n / 64, 0x80 + n % 64]
    else if n < 0x1_0000 then [0xE0 + n / 4096, 0x80 + (n / 64) % 64, 0x80 + n % 64]
    else [0xF0 + n / 262144, 0x80 + (n / 4096) % 64, 0x80 + (n / 64) % 64, 0x80 + n % 64]
  }

  /** The code point carried by a lead byte and its continuation bytes. */
  function Utf8Value(r: seq<byte>): int
  {
    if |r| == 0 then 0
    else if |r| == 1 then r[0] as int
    else if |r| == 2 then (r[0] as int - 0xC0) * 64 + (r[1] as int - 0x80)
    else if |r| == 3 then ((r[0] as int - 0xE0) * 64 + (r[1] as int - 0x80)) * 64 + (r[2] as int - 0x80)
    else
      (((r[0] as int - 0xF0) * 64 + (r[1] as int - 0x80)) * 64 + (r[2] as int - 0x80)) * 64
      + (r[3] as int - 0x80)
  }

  /** The payload bits of the encoding give back the code point, so a decoder recovers the character. */
  lemma Utf8CharValue(c: char)
    ensures Utf8Value(Utf8Char(c)) == c as int
  {
    var n := c as int;
    if 0x800 <= n < 0x1_0000 {
      assert n / 4096 == (n / 64) / 64;
      assert n / 64 == (n / 64 / 64) * 64 + (n / 64) % 64;
    } else if n >= 0x1_0000 {
      assert n / 4096 == (n / 64) / 64;
      assert n / 262144 == (n / 4096) / 64;
      assert n / 64 == (n / 64 / 64) * 64 + (n / 64) % 64;
      assert n / 4096 == (n / 4096 / 64) * 64 + (n / 4096) % 64;
    }
  }

  /** `s.encode("utf8")`. */
  function Utf8(s: string): (r: seq<byte>)
  {
    if s == [] then [] else Utf8Char(s[0]) + Utf8(s[1..])
  }

  /** The length a lead byte announces, or 0 for a byte that cannot start a character. */
  function LeadLength(b: byte): (n: nat)
    ensures n <= 4
  {
    if b < 0x80 then 1
    else if 0xC0 <= b < 0xE0 then 2
    else if 0xE0 <= b < 0xF0 then 3
    else if 0xF0 <= b < 0xF8 then 4
    else 0
  }

  /** A code point Dafny's `char` (a Unicode scalar value) can hold. */
  predicate IsScalar(v: int)
  {
    0 <= v < 0xD800 || 0xE000 <= v < 0x11_0000
  }

  /** `b.decode("utf8")`, strict: every character must be the one encoding `Utf8Char` gives
      it, so truncated, overlong and surrogate sequences are refused. */
  function Utf8Decode(bs: seq<byte>): Option<string>
    decreases |bs|
  {
    if bs == [] then Some("")
    else
      var n := LeadLength(bs[0]);
      if n == 0 || |bs| < n then None
      else
        var v := Utf8Value(bs[..n]);
        if !IsScalar(v) || Utf8Char(v as char) != bs[..n] then None
        else match Utf8Decode(bs[n..])
          case None => None
          case Some(rest) => Some([v as char] + rest)
  }

  /** Decoding the UTF-8 of a string gives the string back. */
  lemma {:induction false} Utf8DecodeEncode(s: string)
    ensures Utf8Decode(Utf8(s)) == Some(s)
  {
    if s != [] {
      var r := Utf8Char(s[0]);
      var bs := Utf8(s);
      assert bs == r + Utf8(s[1..]);
      assert bs[..|r|] == r && bs[|r|..] == Utf8(s[1..]);
      Utf8CharValue(s[0]);
      Utf8DecodeEncode(s[1..]);
      assert [s[0]] + s[1..] == s;
    }
  }

  /** Different strings have different UTF-8 encodings. */
  lemma Utf8Injective(a: string, b: string)
    requires Utf8(a) == Utf8(b)
    ensures a == b
  {
    Utf8DecodeEncode(a);
    Utf8DecodeEncode(b);
  }

  predicate IsAscii(s: string)
  {
    forall i :: 0 <= i < |s| ==> s[i] as int < 0x80
  }

  /** On ASCII text the UTF-8 encoding is the code points themselves, one byte each. */
  lemma {:induction false} Utf8Ascii(s: string)
    requires IsAscii(s)
    ensures |Utf8(s)| == |s|
    ensures forall i :: 0 <= i < |s| ==> Utf8(s)[i] == s[i] as int
  {
    if s != [] {
      Utf8Ascii(s[1..]);
    }
  }

  /** Encoding distributes over concatenation. */
  lemma {:induction false} Utf8Append(s: string, t: string)
    ensures Utf8(s + t) == Utf8(s) + Utf8(t)
  {
    if s != [] {
      assert (s + t)[1..] == s[1..] + t;
      Utf8Append(s[1..], t);
    } else {
      assert s + t == t;
    }
  }

  // ---------------------------------------------------------------------------
  // Hexadecimal digits.

  predicate IsLowerHex(c: char) { '0' <= c <= '9' || 'a' <= c <= 'f' }

  function LowerHexChar(d: nat): (c: char)
    requires d < 16
    ensures IsLowerHex(c)
  {
    if d < 10 then ('0' as int + d) as char else ('a' as int + d - 10) as char
  }

  function UpperHexChar(d: nat): char
    requires d < 16
  {
    if d < 10 then ('0' as int + d) as char else ('A' as int + d - 10) as char
  }

  function LowerHexValue(c: char): Option<nat>
  {
    if '0' <= c <= '9' then Some(c as int - '0' as int)
    else if 'a' <= c <= 'f' then Some(c as int - 'a' as int + 10)
    else None
  }

  function UpperHexValue(c: char): Option<nat>
  {
    if '0' <= c <= '9' then Some(c as int - '0' as int)
    else if 'A' <= c <= 'F' then Some(c as int - 'A' as int + 10)
    else None
  }

  lemma UpperHexValueChar(d: nat)
    requires d < 16
    ensures UpperHexValue(UpperHexChar(d)) == Some(d)
  {
  }

  /** `digest.hexdigest()`: two lowercase hexadecimal digits per byte, high nibble first. */
  function HexDigest(bs: seq<byte>): (h: string)
    ensures |h| == 2 * |bs|
    ensures forall i :: 0 <= i < |h| ==> IsLowerHex(h[i])
  {
    if bs == [] then ""
    else [LowerHexChar(bs[0] / 16), LowerHexChar(bs[0] % 16)] + HexDigest(bs[1..])
  }

  /** Reads a lowercase hexadecimal string back into bytes (the partner of HexDigest). */
  function HexDecode(h: string): Option<seq<byte>>
  {
    if |h| == 0 then Some([])
    else if |h| == 1 then None
    else match (LowerHexValue(h[0]), LowerHexValue(h[1]), HexDecode(h[2..]))
      case (Some(hi), Some(lo), Some(rest)) =>
        if hi < 16 && lo < 16 then Some([hi * 16 + lo] + rest) else None
      case _ => None
  }

  /** The hex rendering loses nothing: the digest bytes are recovered from it. */
  lemma {:induction false} HexDecodeDigest(bs: seq<byte>)
    ensures HexDecode(HexDigest(bs)) == Some(bs)
  {
    if bs != [] {
      var h := HexDigest(bs);
      assert h[2..] == HexDigest(bs[1..]);
      HexDecodeDigest(bs[1..]);
      assert [bs[0]] + bs[1..] == bs;
    }
  }

  /** Different digests never share a hex rendering. */
  lemma HexDigestInjective(a: seq<byte>, b: seq<byte>)
    requires HexDigest(a) == HexDigest(b)
    ensures a == b
  {
    HexDecodeDigest(a);
    HexDecodeDigest(b);
  }

  // ---------------------------------------------------------------------------
  // `quote_plus(s, safe="")`: unreserved characters stay, a space becomes `+`,
  // every other character becomes `%XX` per UTF-8 byte, with upper-case digits.

  /** Python's always-safe set: ASCII letters, digits and `_.-~` (section 2.3 of RFC 3986). */
  predicate Unreserved(c: char)
  {
    'A' <= c <= 'Z' || 'a' <= c <= 'z' || '0' <= c <= '9' || c == '_' || c == '.' || c == '-' || c == '~'
  }

  /** The characters quote_plus can emit. */
  predicate QueryChar(c: char)
  {
    Unreserved(c) || c == '+' || c == '%'
  }

  function PercentEncode(bs: seq<byte>): (q: string)
    ensures |q| == 3 * |bs|
    ensures forall i :: 0 <= i < |q| ==> QueryChar(q[i])
  {
    if bs == [] then ""
    else ['%', UpperHexChar(bs[0] / 16), UpperHexChar(bs[0] % 16)] + PercentEncode(bs[1..])
  }

  function QuoteChar(c: char): (q: string)
    ensures forall i :: 0 <= i < |q| ==> QueryChar(q[i])
  {
    if Unreserved(c) then [c]
    else if c == ' ' then "+"
    else PercentEncode(Utf8Char(c))
  }

  /** `quote_plus(s)` as `urlencode` applies it to every key and value. */
  function QuotePlus(s: string): (q: string)
    ensures forall i :: 0 <= i < |q| ==> QueryChar(q[i])
  {
    if s == [] then "" else QuoteChar(s[0]) + QuotePlus(s[1..])
  }

  /** Text made only of unreserved characters is left as it is. */
  lemma {:induction false} QuotePlusUnreserved(s: string)
    requires forall i :: 0 <= i < |s| ==> Unreserved(s[i])
    ensures QuotePlus(s) == s
  {
    if s != [] {
      QuotePlusUnreserved(s[1..]);
    }
  }

  /** `%XX` decoding and `+` as space, back to bytes (the partner of QuotePlus). */
  function Unquote(q: string): Option<seq<byte>>
  {
    if q == [] then Some([])
    else if q[0] == '%' then
      if |q| < 3 then None
      else match (UpperHexValue(q[1]), UpperHexValue(q[2]), Unquote(q[3..]))
        case (Some(hi), Some(lo), Some(rest)) =>
          if hi < 16 && lo < 16 then Some([hi * 16 + lo] + rest) else None
        case _ => None
    else
      match Unquote(q[1..])
      case Some(rest) =>
        if q[0] == '+' then Some([0x20] + rest)
        else if Unreserved(q[0]) then Some([q[0] as int] + rest)
        else None
      case None => None
  }

  function Prepend(bs: seq<byte>, o: Option<seq<byte>>): Option<seq<byte>>
  {
    match o
    case Some(rest) => Some(bs + rest)
    case None => None
  }

  lemma {:induction false} UnquotePercent(bs: seq<byte>, rest: string)
    ensures Unquote(PercentEncode(bs) + rest) == Prepend(bs, Unquote(rest))
  {
    if bs != [] {
      var q := PercentEncode(bs) + rest;
      var hi, lo := bs[0] / 16, bs[0] % 16;
      assert q[0] == '%' && q[1] == UpperHexChar(hi) && q[2] == UpperHexChar(lo);
      UpperHexValueChar(hi);
      UpperHexValueChar(lo);
      assert q[3..] == PercentEncode(bs[1..]) + rest;
      UnquotePercent(bs[1..], rest);
      assert hi * 16 + lo == bs[0];
      match Unquote(rest) {
        case Some(x) =>
          assert Unquote(q[3..]) == Some(bs[1..] + x);
          assert [bs[0]] + (bs[1..] + x) == bs + x;
        case None =>
          assert Unquote(q[3..]) == None;
      }
    } else {
      assert PercentEncode(bs) + rest == rest;
      match Unquote(rest) {
        case Some(x) => assert bs + x == x;
        case None =>
      }
    }
  }

  lemma UnquoteChar(c: char, rest: string)
    ensures Unquote(QuoteChar(c) + rest) == Prepend(Utf8Char(c), Unquote(rest))
  {
    if Unreserved(c) || c == ' ' {
      assert (QuoteChar(c) + rest)[1..] == rest;
    } else {
      UnquotePercent(Utf8Char(c), rest);
    }
  }

  /** Percent-decoding what quote_plus produced gives back the UTF-8 bytes of the input. */
  lemma {:induction false} UnquoteQuotePlus(s: string)
    ensures Unquote(QuotePlus(s)) == Some(Utf8(s))
  {
    if s != [] {
      UnquoteQuotePlus(s[1..]);
      UnquoteChar(s[0], QuotePlus(s[1..]));
    }
  }

  // ---------------------------------------------------------------------------
  // `urlencode(pairs)`: `quote_plus(k) + "=" + quote_plus(v)` for each pair in
  // iteration order, joined by `&`.

  function EncodePair(p: (string, string)): string
  {
    QuotePlus(p.0) + "=" + QuotePlus(p.1)
  }

  function EncodedPairs(pairs: seq<(string, string)>): (segs: seq<string>)
    ensures |segs| == |pairs|
    ensures forall i :: 0 <= i < |pairs| ==> segs[i] == EncodePair(pairs[i])
  {
    if pairs == [] then [] else [EncodePair(pairs[0])] + EncodedPairs(pairs[1..])
  }

  /** `urlencode(pairs)`. */
  function UrlEncode(pairs: seq<(string, string)>): string
  {
    Join(EncodedPairs(pairs), '&')
  }

  /** A character `urlencode` may emit: query-safe text and the two delimiters. */
  predicate UrlChar(c: char)
  {
    QueryChar(c) || c == '=' || c == '&'
  }

  /** The signed string holds only query-safe characters and the two delimiters, so splitting
      it at them is unambiguous. */
  lemma {:induction false} UrlEncodeChars(pairs: seq<(string, string)>)
    ensures forall i :: 0 <= i < |UrlEncode(pairs)| ==> UrlChar(UrlEncode(pairs)[i])
  {
    var segs := EncodedPairs(pairs);
    if |pairs| == 1 {
      assert Join(segs, '&') == QuotePlus(pairs[0].0) + "=" + QuotePlus(pairs[0].1);
    } else if |pairs| > 1 {
      UrlEncodeChars(pairs[1..]);
      assert segs[1..] == EncodedPairs(pairs[1..]);
      assert Join(segs, '&') == QuotePlus(pairs[0].0) + "=" + QuotePlus(pairs[0].1) + "&"
        + UrlEncode(pairs[1..]);
    }
  }

  /** The decoded pairs a server reads back from a query string. */
  function DecodePair(seg: string): Option<(seq<byte>, seq<byte>)>
  {
    var kv := Split(seg, '=');
    if |kv| != 2 then None
    else match (Unquote(kv[0]), Unquote(kv[1]))
      case (Some(k), Some(v)) => Some((k, v))
      case _ => None
  }

  function DecodePairs(segs: seq<string>): Option<seq<(seq<byte>, seq<byte>)>>
  {
    if segs == [] then Some([])
    else match (DecodePair(segs[0]), DecodePairs(segs[1..]))
      case (Some(p), Some(rest)) => Some([p] + rest)
      case _ => None
  }

  /** Splits a query string at `&` and `=` and percent-decodes both sides (the partner of UrlEncode). */
  function ParseQuery(q: string): Option<seq<(seq<byte>, seq<byte>)>>
  {
    if q == "" then Some([]) else DecodePairs(Split(q, '&'))
  }

  /** The UTF-8 bytes of every key and value, in order. */
  function PairBytes(pairs: seq<(string, string)>): (r: seq<(seq<byte>, seq<byte>)>)
    ensures |r| == |pairs|
  {
    if pairs == [] then [] else [(Utf8(pairs[0].0), Utf8(pairs[0].1))] + PairBytes(pairs[1..])
  }

  lemma NoDelimiter(q: string, c: char)
    requires forall i :: 0 <= i < |q| ==> QueryChar(q[i])
    requires !QueryChar(c)
    ensures c !in q
  {
  }

  lemma DecodeEncodedPair(p: (string, string))
    ensures DecodePair(EncodePair(p)) == Some((Utf8(p.0), Utf8(p.1)))
  {
    var qk, qv := QuotePlus(p.0), QuotePlus(p.1);
    NoDelimiter(qk, '=');
    NoDelimiter(qv, '=');
    assert Join([qk, qv], '=') == EncodePair(p);
    SplitJoin([qk, qv], '=');
    UnquoteQuotePlus(p.0);
    UnquoteQuotePlus(p.1);
  }

  lemma {:induction false} DecodeEncodedPairs(pairs: seq<(string, string)>)
    ensures DecodePairs(EncodedPairs(pairs)) == Some(PairBytes(pairs))
  {
    if pairs != [] {
      DecodeEncodedPair(pairs[0]);
      assert EncodedPairs(pairs)[1..] == EncodedPairs(pairs[1..]);
      DecodeEncodedPairs(pairs[1..]);
    }
  }

  /** A server that splits the signed query string and percent-decodes it recovers exactly the
      pairs that were encoded, in order: the canonical string is unambiguous. */
  lemma ParseUrlEncode(pairs: seq<(string, string)>)
    ensures ParseQuery(UrlEncode(pairs)) == Some(PairBytes(pairs))
  {
    var segs := EncodedPairs(pairs);
    if pairs != [] {
      forall k | 0 <= k < |segs| ensures '&' !in segs[k] {
        NoDelimiter(QuotePlus(pairs[k].0), '&');
        NoDelimiter(QuotePlus(pairs[k].1), '&');
      }
      SplitJoin(segs, '&');
      assert '=' in segs[0];
      assert UrlEncode(pairs) != "" by {
        if |segs| > 1 {
          assert UrlEncode(pairs) == segs[0] + ['&'] + Join(segs[1..], '&');
        }
      }
      DecodeEncodedPairs(pairs);
    }
  }

  /** The keys and values of decoded pairs read back as text. */
  function DecodePairTexts(ps: seq<(seq<byte>, seq<byte>)>): Option<seq<(string, string)>>
  {
    if ps == [] then Some([])
    else match (Utf8Decode(ps[0].0), Utf8Decode(ps[0].1), DecodePairTexts(ps[1..]))
      case (Some(k), Some(v), Some(rest)) => Some([(k, v)] + rest)
      case _ => None
  }

  /** A query string read back as the text pairs it carries. */
  function ParseQueryText(q: string): Option<seq<(string, string)>>
  {
    match ParseQuery(q)
    case None => None
    case Some(ps) => DecodePairTexts(ps)
  }

  lemma {:induction false} DecodePairBytes(pairs: seq<(string, string)>)
    ensures DecodePairTexts(PairBytes(pairs)) == Some(pairs)
  {
    if pairs != [] {
      var k, v, rest := pairs[0].0, pairs[0].1, pairs[1..];
      Utf8DecodeEncode(k);
      Utf8DecodeEncode(v);
      DecodePairBytes(rest);
      var ps := PairBytes(pairs);
      assert ps == [(Utf8(k), Utf8(v))] + PairBytes(rest);
      assert ps[0] == (Utf8(k), Utf8(v)) && ps[1..] == PairBytes(rest);
      assert [(k, v)] + rest == pairs;
    }
  }

  /** The signed string gives back exactly the pairs that were signed, as text, in order. */
  lemma ParseUrlEncodeText(pairs: seq<(string, string)>)
    ensures ParseQueryText(UrlEncode(pairs)) == Some(pairs)
  {
    ParseUrlEncode(pairs);
    DecodePairBytes(pairs);
  }

  /** Two different parameter maps never produce the same signed string. */
  lemma UrlEncodeInjective(a: seq<(string, string)>, b: seq<(string, string)>)
    requires UrlEncode(a) == UrlEncode(b)
    ensures a == b
  {
    ParseUrlEncodeText(a);
    ParseUrlEncodeText(b);
  }

  /** For keys and values made of unreserved characters the signed string is the plain
      `k=v&k=v` text. */
  lemma {:induction false} UrlEncodeUnreserved(pairs: seq<(string, string)>)
    requires forall i :: 0 <= i < |pairs| ==> forall j :: 0 <= j < |pairs[i].0| ==> Unreserved(pairs[i].0[j])
    requires forall i :: 0 <= i < |pairs| ==> forall j :: 0 <= j < |pairs[i].1| ==> Unreserved(pairs[i].1[j])
    ensures UrlEncode(pairs) == Join(PlainPairs(pairs), '&')
  {
    assert EncodedPairs(pairs) == PlainPairs(pairs) by {
      forall i | 0 <= i < |pairs| ensures EncodedPairs(pairs)[i] == PlainPairs(pairs)[i] {
        QuotePlusUnreserved(pairs[i].0);
        QuotePlusUnreserved(pairs[i].1);
      }
    }
  }

  function PlainPairs(pairs: seq<(string, string)>): (segs: seq<string>)
    ensures |segs| == |pairs|
    ensures forall i :: 0 <= i < |pairs| ==> segs[i] == pairs[i].0 + "=" + pairs[i].1
  {
    if pairs == [] then [] else [pairs[0].0 + "=" + pairs[0].1] + PlainPairs(pairs[1..])
  }

  predicate AllUnreserved(s: string)
  {
    forall i :: 0 <= i < |s| ==> Unreserved(s[i])
  }

  /** Two pairs of unreserved text encode as `k=v&k=v`. */
  lemma UrlEncodeTwoUnreserved(w: seq<(string, string)>)
    requires |w| == 2
    requires AllUnreserved(w[0].0) && AllUnreserved(w[0].1)
    requires AllUnreserved(w[1].0) && AllUnreserved(w[1].1)
    ensures UrlEncode(w) == w[0].0 + "=" + w[0].1 + "&" + w[1].0 + "=" + w[1].1
  {
    QuotePlusUnreserved(w[0].0);
    QuotePlusUnreserved(w[0].1);
    QuotePlusUnreserved(w[1].0);
    QuotePlusUnreserved(w[1].1);
    var segs := EncodedPairs(w);
    assert segs[1..] == [EncodePair(w[1])];
    assert Join(segs, '&') == segs[0] + ['&'] + Join(segs[1..], '&');
  }
}
