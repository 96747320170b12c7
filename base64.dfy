/** Base64 as the browser's `btoa` and `atob` implement it: `Encode` is the
    padded encoding of section 4 of RFC 4648; `Decode` is the WHATWG
    "forgiving-base64 decode", which drops ASCII white space, accepts the input
    with or without its padding, and ignores the unused low bits of the last
    character. */
module Base64 {
  import opened Wrappers

  /** The 64 characters of the standard alphabet (Table 1 of RFC 4648). */
  predicate IsAlphabetChar(c: char) {
    'A' <= c <= 'Z' || 'a' <= c <= 'z' || '0' <= c <= '9' || c == '+' || c == '/'
  }

  predicate AllAlphabet(s: string) {
    forall i :: 0 <= i < |s| ==> IsAlphabetChar(s[i])
  }

  function CharOf(v: int): (c: char)
    requires 0 <= v < 64
    ensures IsAlphabetChar(c)
  {
    if v < 26 then ('A' as int + v) as char
    else if v < 52 then ('a' as int + v - 26) as char
    else if v < 62 then ('0' as int + v - 52) as char
    else if v == 62 then '+'
    else '/'
  }

  function ValueOf(c: char): (v: int)
    requires IsAlphabetChar(c)
    ensures 0 <= v < 64 && CharOf(v) == c
  {
    if 'A' <= c <= 'Z' then c as int - 'A' as int
    else if 'a' <= c <= 'z' then c as int - 'a' as int + 26
    else if '0' <= c <= '9' then c as int - '0' as int + 52
    else if c == '+' then 62
    else 63
  }

  lemma ValueOfCharOf(v: int)
    requires 0 <= v < 64
    ensures ValueOf(CharOf(v)) == v
  {
  }

  /** The four characters of a group of three bytes: its 24 bits as four
      sextets, most significant first. */
  function QuantumChars(b0: Byte, b1: Byte, b2: Byte): (q: string)
    ensures |q| == 4 && AllAlphabet(q)
  {
    [CharOf(b0 / 4), CharOf(b0 % 4 * 16 + b1 / 16), CharOf(b1 % 16 * 4 + b2 / 64), CharOf(b2 % 64)]
  }

  /** The characters for `bs` without padding: four per complete group of three
      bytes, then two for a trailing single byte or three for a trailing pair,
      the missing bits being zero. */
  function EncodeBody(bs: seq<Byte>): (r: string)
    ensures AllAlphabet(r) && |bs| <= |r|
    ensures |r| % 4 == (if |bs| % 3 == 0 then 0 else |bs| % 3 + 1)
    decreases |bs|
  {
    if |bs| == 0 then ""
    else if |bs| == 1 then QuantumChars(bs[0], 0, 0)[..2]
    else if |bs| == 2 then QuantumChars(bs[0], bs[1], 0)[..3]
    else
      var rest := EncodeBody(bs[3..]);
      ShiftMod(|bs[3..]|, |rest|);
      QuantumChars(bs[0], bs[1], bs[2]) + rest
  }

  lemma ShiftMod(n: nat, m: nat)
    ensures (n + 3) % 3 == n % 3 && (m + 4) % 4 == m % 4
  {
  }

  /** The `=` characters that complete the last quantum (section 3.2 of RFC 4648). */
  function Padding(n: nat): string {
    if n % 3 == 1 then "==" else if n % 3 == 2 then "=" else ""
  }

  /** The padding brings the unpadded length up to a multiple of four. */
  lemma PaddingCompletes(b: nat, n: nat)
    requires b % 4 == (if n % 3 == 0 then 0 else n % 3 + 1)
    ensures (b + |Padding(n)|) % 4 == 0
  {
    var q := b / 4;
    assert b == 4 * q + b % 4;
    if n % 3 == 1 {
      assert b + 2 == 4 * (q + 1);
    } else if n % 3 == 2 {
      assert b + 1 == 4 * (q + 1);
    }
  }

  /** `btoa`: the padded encoding. */
  function Encode(bs: seq<Byte>): (r: string)
    ensures |r| % 4 == 0
    ensures forall i :: 0 <= i < |r| ==> IsAlphabetChar(r[i]) || r[i] == '='
  {
    var body := EncodeBody(bs);
    PaddingCompletes(|body|, |bs|);
    body + Padding(|bs|)
  }

  /** The code points `atob` ignores: TAB, LF, FF, CR and SPACE. */
  predicate IsAsciiWhitespace(c: char) {
    c == '\t' || c == '\n' || c == '\U{000C}' || c == '\r' || c == ' '
  }

  function RemoveAsciiWhitespace(s: string): (r: string)
    ensures |r| <= |s|
  {
    if s == [] then ""
    else if IsAsciiWhitespace(s[0]) then RemoveAsciiWhitespace(s[1..])
    else [s[0]] + RemoveAsciiWhitespace(s[1..])
  }

  /** Drops one or two final `=` when the length is a multiple of four. */
  function StripPadding(d: string): string {
    if |d| % 4 == 0 && |d| >= 2 && d[|d| - 2..] == "==" then d[..|d| - 2]
    else if |d| % 4 == 0 && |d| >= 1 && d[|d| - 1] == '=' then d[..|d| - 1]
    else d
  }

  /** The three bytes of four alphabet characters. */
  function QuantumBytes(q: string): (r: seq<Byte>)
    requires |q| == 4 && AllAlphabet(q)
    ensures |r| == 3
  {
    var v0, v1, v2, v3 := ValueOf(q[0]), ValueOf(q[1]), ValueOf(q[2]), ValueOf(q[3]);
    [v0 * 4 + v1 / 16, v1 % 16 * 16 + v2 / 4, v2 % 4 * 64 + v3]
  }

  /** The bytes for an unpadded run of alphabet characters: three per group of
      four, then one for two trailing characters and two for three, discarding
      the leftover low bits (completing the group with zero sextets, 'A', and
      keeping the whole bytes comes to the same). */
  function DecodeBody(d: string): (r: seq<Byte>)
    requires AllAlphabet(d) && |d| % 4 != 1
    decreases |d|
  {
    if |d| < 2 then []
    else if |d| == 2 then QuantumBytes(d + "AA")[..1]
    else if |d| == 3 then QuantumBytes(d + "A")[..2]
    else QuantumBytes(d[..4]) + DecodeBody(d[4..])
  }

  /** `atob`: `None` where it throws an InvalidCharacterError. */
  function Decode(data: string): (r: Option<seq<Byte>>)
    ensures r.Some? <==>
      var d := StripPadding(RemoveAsciiWhitespace(data)); |d| % 4 != 1 && AllAlphabet(d)
  {
    var d := StripPadding(RemoveAsciiWhitespace(data));
    if |d| % 4 == 1 || !AllAlphabet(d) then None
    else Some(DecodeBody(d))
  }

  /** The bit arithmetic of one group: regrouping the four sextets of three
      bytes into octets gives the bytes back. */
  lemma SextetsToOctets(b0: Byte, b1: Byte, b2: Byte)
    ensures var v0, v1 := b0 / 4, b0 % 4 * 16 + b1 / 16;
      var v2, v3 := b1 % 16 * 4 + b2 / 64, b2 % 64;
      && v0 * 4 + v1 / 16 == b0
      && v1 % 16 * 16 + v2 / 4 == b1
      && v2 % 4 * 64 + v3 == b2
  {
  }

  /** Decoding the four characters of three bytes gives the bytes back. */
  lemma QuantumRoundTrip(b0: Byte, b1: Byte, b2: Byte)
    ensures QuantumBytes(QuantumChars(b0, b1, b2)) == [b0, b1, b2]
  {
    var v0, v1 := b0 / 4, b0 % 4 * 16 + b1 / 16;
    var v2, v3 := b1 % 16 * 4 + b2 / 64, b2 % 64;
    var q := QuantumChars(b0, b1, b2);
    assert ValueOf(q[0]) == v0 && ValueOf(q[1]) == v1 && ValueOf(q[2]) == v2 && ValueOf(q[3]) == v3 by {
      ValueOfCharOf(v0);
      ValueOfCharOf(v1);
      ValueOfCharOf(v2);
      ValueOfCharOf(v3);
    }
    assert QuantumBytes(q) == [v0 * 4 + v1 / 16, v1 % 16 * 16 + v2 / 4, v2 % 4 * 64 + v3];
    SextetsToOctets(b0, b1, b2);
  }

  /** With zero low bits the dropped characters are 'A's. */
  lemma QuantumTail(b0: Byte, b1: Byte)
    ensures QuantumChars(b0, b1, 0)[3] == 'A'
    ensures b1 == 0 ==> QuantumChars(b0, b1, 0)[2] == 'A'
  {
  }

  lemma {:induction false} DecodeBodyEncodeBody(bs: seq<Byte>)
    ensures DecodeBody(EncodeBody(bs)) == bs
    decreases |bs|
  {
    if |bs| == 1 {
      var q := QuantumChars(bs[0], 0, 0);
      QuantumTail(bs[0], 0);
      assert EncodeBody(bs) + "AA" == q;
      QuantumRoundTrip(bs[0], 0, 0);
    } else if |bs| == 2 {
      var q := QuantumChars(bs[0], bs[1], 0);
      QuantumTail(bs[0], bs[1]);
      assert EncodeBody(bs) + "A" == q;
      QuantumRoundTrip(bs[0], bs[1], 0);
    } else if |bs| >= 3 {
      var b0, b1, b2, rest := bs[0], bs[1], bs[2], bs[3..];
      assert bs == [b0, b1, b2] + rest;
      assert DecodeBody(EncodeBody(bs)) == QuantumBytes(QuantumChars(b0, b1, b2)) + DecodeBody(EncodeBody(rest)) by {
        var e := EncodeBody(bs);
        assert e[..4] == QuantumChars(b0, b1, b2) && e[4..] == EncodeBody(rest);
      }
      QuantumRoundTrip(b0, b1, b2);
      DecodeBodyEncodeBody(rest);
    }
  }

  lemma {:induction false} RemoveAsciiWhitespaceNoop(s: string)
    requires forall i :: 0 <= i < |s| ==> IsAlphabetChar(s[i]) || s[i] == '='
    ensures RemoveAsciiWhitespace(s) == s
  {
    if s != [] {
      RemoveAsciiWhitespaceNoop(s[1..]);
      assert [s[0]] + s[1..] == s;
    }
  }

  /** Stripping the padding of a padded body gives the body back. */
  lemma StripPaddingOfPadded(body: string, n: nat)
    requires AllAlphabet(body) && |body| % 4 == (if n % 3 == 0 then 0 else n % 3 + 1)
    ensures StripPadding(body + Padding(n)) == body
  {
    var e := body + Padding(n);
    PaddingCompletes(|body|, n);
    if n % 3 == 1 {
      assert e[|e| - 2..] == "==" && e[..|e| - 2] == body;
    } else if n % 3 == 2 {
      assert e[|e| - 2] == body[|body| - 1] && e[|e| - 1] == '=';
      assert e[..|e| - 1] == body;
    } else {
      assert e == body;
      if |e| >= 1 {
        assert IsAlphabetChar(e[|e| - 1]);
      }
    }
  }

  lemma StripPaddingOfEncode(bs: seq<Byte>)
    ensures StripPadding(Encode(bs)) == EncodeBody(bs)
  {
    StripPaddingOfPadded(EncodeBody(bs), |bs|);
  }

  /** `atob(btoa(bs)) == bs` for every byte string. */
  lemma DecodeEncode(bs: seq<Byte>)
    ensures Decode(Encode(bs)) == Some(bs)
  {
    var e := Encode(bs);
    RemoveAsciiWhitespaceNoop(e);
    StripPaddingOfEncode(bs);
    var d := StripPadding(RemoveAsciiWhitespace(e));
    assert d == EncodeBody(bs);
    assert |d| % 4 != 1 && AllAlphabet(d);
    DecodeBodyEncodeBody(bs);
    assert Decode(e) == Some(DecodeBody(d));
  }
}
