/** The message codec of lib/urlEncoder.ts: text to UTF-8, UTF-8 to Base64, and
    Base64 to the path-safe "base64url" form of section 5 of RFC 4648 with the
    padding dropped (section 3.2 of RFC 4648), and back. */
module UrlEncoder {
  import opened Wrappers
  import JsText
  import Utf8
  import Base64

  const EMPTY_MESSAGE_ERROR := "Message cannot be empty"

  /** `s.replace(/x/g, y)` for a single character `x`. */
  function ReplaceAll(s: string, x: char, y: char): (r: string)
    ensures |r| == |s|
    ensures forall i :: 0 <= i < |s| ==> r[i] == (if s[i] == x then y else s[i])
  {
    seq(|s|, i requires 0 <= i < |s| => if s[i] == x then y else s[i])
  }

  /** `s.replace(/x/g, '')` for a single character `x`. */
  function RemoveAll(s: string, x: char): (r: string)
    ensures x !in r
  {
    if s == [] then "" else (if s[0] == x then "" else [s[0]]) + RemoveAll(s[1..], x)
  }

  /** A character of the base64url alphabet (Table 2 of RFC 4648). */
  predicate IsUrlSafeChar(c: char) {
    'A' <= c <= 'Z' || 'a' <= c <= 'z' || '0' <= c <= '9' || c == '-' || c == '_'
  }

  /** `+` becomes `-`, `/` becomes `_`, and every `=` is removed. */
  function ToUrlSafe(b64: string): string {
    RemoveAll(ReplaceAll(ReplaceAll(b64, '+', '-'), '/', '_'), '=')
  }

  /** `-` becomes `+` and `_` becomes `/`. */
  function FromUrlSafe(token: string): string {
    ReplaceAll(ReplaceAll(token, '-', '+'), '_', '/')
  }

  /** `encodeMessage`: fails on an empty or blank message, otherwise yields a
      non-empty token made only of base64url characters (no `+`, `/` or `=`). */
  function EncodeMessage(message: string): (r: Result<string, string>)
    ensures r.Failure? <==> JsText.AllSpace(message)
    ensures r.Failure? ==> r.error == EMPTY_MESSAGE_ERROR
    ensures r.Success? ==> r.value != "" && forall i :: 0 <= i < |r.value| ==> IsUrlSafeChar(r.value[i])
  {
    if message == "" || JsText.Trim(message) == "" then Failure(EMPTY_MESSAGE_ERROR)
    else
      var bytes := Utf8.Encode(message);
      UrlSafeOfEncode(bytes);
      Success(ToUrlSafe(Base64.Encode(bytes)))
  }

  function PadSigns(n: nat): (r: string)
    ensures |r| == n && forall i :: 0 <= i < n ==> r[i] == '='
  {
    seq(n, _ => '=')
  }

  /** The number of `=` that bring length `n` to a multiple of four. */
  function Missing(n: nat): (k: nat)
    ensures k < 4 && (n + k) % 4 == 0
  {
    (4 - n % 4) % 4
  }

  /** The padding restored by `decodeMessage`: the fewest `=` that make the
      length a multiple of four. */
  function Padded(s: string): (r: string)
    ensures |r| % 4 == 0 && |s| <= |r| < |s| + 4
    ensures r[..|s|] == s && forall i :: |s| <= i < |r| ==> r[i] == '='
  {
    s + PadSigns(Missing(|s|))
  }

  /** The padding loop of `decodeMessage`: append `=` while the length is not a
      multiple of four. */
  method RestorePadding(s: string) returns (r: string)
    ensures r == Padded(s)
  {
    r := s;
    ghost var k := 0;
    while |r| % 4 != 0
      invariant k <= Missing(|s|) && |r| == |s| + k
      invariant r == s + PadSigns(k)
      decreases Missing(|s|) - k
    {
      assert PadSigns(k) + "=" == PadSigns(k + 1);
      r := r + "=";
      k := k + 1;
    }
  }

  /** What `decodeMessage` returns, as a function of the token: `None` for a
      blank token and wherever `atob` or `decodeURIComponent` would throw. */
  function Decoded(token: string): (r: Option<string>)
    ensures JsText.AllSpace(token) ==> r.None?
  {
    if token == "" || JsText.Trim(token) == "" then None
    else match Base64.Decode(Padded(FromUrlSafe(token)))
      case None => None
      case Some(bytes) => Utf8.Decode(bytes)
  }

  /** `decodeMessage`. */
  method DecodeMessage(token: string) returns (r: Option<string>)
    ensures r == Decoded(token)
  {
    if token == "" || JsText.Trim(token) == "" {
      return None;
    }
    var base64 := FromUrlSafe(token);
    base64 := RestorePadding(base64);
    match Base64.Decode(base64)
    case None => r := None;
    case Some(bytes) => r := Utf8.Decode(bytes);
  }

  /** `isValidEncodedMessage`: the token decodes to text that is not blank. */
  function IsValidEncodedMessage(token: string): (r: bool)
    ensures r <==> Decoded(token).Some? && !JsText.AllSpace(Decoded(token).value)
  {
    if token == "" || JsText.Trim(token) == "" then false
    else
      var decoded := Decoded(token);
      decoded.Some? && JsText.Trim(decoded.value) != ""
  }

  /** `getWordCount`, as written: 0 when decoding fails or yields the empty
      string, otherwise the length of `decoded.trim().split(/\s+/)`. A token
      that decodes to white space only therefore counts one word. */
  function GetWordCount(token: string): (n: nat)
    ensures n == 0 <==> Decoded(token).None? || Decoded(token).value == ""
    ensures IsValidEncodedMessage(token) ==> n == |JsText.Words(Decoded(token).value)|
    ensures Decoded(token).Some? && Decoded(token).value != "" && JsText.AllSpace(Decoded(token).value) ==> n == 1
    ensures IsValidEncodedMessage(token) ==> n == JsText.WordRuns(Decoded(token).value)
  {
    var decoded := Decoded(token);
    if decoded.None? || decoded.value == "" then 0
    else
      JsText.WordsCountsWordRuns(decoded.value);
      |JsText.Words(decoded.value)|
  }

  /** The word count the documentation of `getWordCount` promises: the number
      of words of a valid token, which is the number of maximal runs of
      non-white-space code points of its text, and 0 exactly for the tokens
      `isValidEncodedMessage` rejects. */
  function WordCount(token: string): (n: nat)
    ensures n == 0 <==> !IsValidEncodedMessage(token)
    ensures n > 0 ==> n == |JsText.Words(Decoded(token).value)|
    ensures n == (if Decoded(token).Some? then JsText.WordRuns(Decoded(token).value) else 0)
  {
    if IsValidEncodedMessage(token) then
      JsText.WordsCountsWordRuns(Decoded(token).value);
      |JsText.Words(Decoded(token).value)|
    else if Decoded(token).Some? then
      JsText.WordsCountsWordRuns(Decoded(token).value);
      0
    else 0
  }

  /** "IA" is the token of the single space " ": it is not a valid token, yet
      `getWordCount` reports one word for it, where `WordCount` reports none. */
  lemma BlankTokenCountsOneWord()
    ensures Decoded("IA") == Some(" ")
    ensures !IsValidEncodedMessage("IA")
    ensures GetWordCount("IA") == 1 && WordCount("IA") == 0
  {
    assert JsText.Trim("IA") != "" by {
      assert !JsText.AllSpace("IA") by { assert !JsText.IsSpace("IA"[0]); }
    }
    assert Base64.Decode(Padded(FromUrlSafe("IA"))) == Some([0x20]) by {
      SpaceToken();
    }
    assert Utf8.Decode([0x20]) == Some(" ") by {
      SpaceBytes();
    }
    assert JsText.AllSpace(" ");
  }

  /** "IA" restores to "IA==", the Base64 of the single byte 0x20. */
  lemma SpaceToken()
    ensures Base64.Decode(Padded(FromUrlSafe("IA"))) == Some([0x20])
  {
    PaddedIA();
    StrippedIA();
    DecodedBodyIA();
  }

  lemma PaddedIA()
    ensures Padded(FromUrlSafe("IA")) == "IA=="
  {
    assert FromUrlSafe("IA") == "IA";
    assert PadSigns(2) == "==";
  }

  lemma StrippedIA()
    ensures Base64.StripPadding(Base64.RemoveAsciiWhitespace("IA==")) == "IA"
  {
    Base64.RemoveAsciiWhitespaceNoop("IA==");
    assert "IA=="[2..] == "==" && "IA=="[..2] == "IA";
  }

  lemma DecodedBodyIA()
    ensures Base64.AllAlphabet("IA") && Base64.DecodeBody("IA") == [0x20]
  {
    assert "IA" + "AA" == "IAAA";
    assert Base64.ValueOf('I') == 8 && Base64.ValueOf('A') == 0;
    assert Base64.QuantumBytes("IAAA") == [0x20, 0, 0];
  }

  /** The byte 0x20 is the UTF-8 encoding of a single space. */
  lemma SpaceBytes()
    ensures Utf8.Decode([0x20]) == Some(" ")
  {
    var space: seq<Wrappers.Byte> := [0x20];
    assert (0x20 as char) == ' ';
    assert Utf8.DecodeFirst(space) == Some((' ', 1));
    assert space[1..] == [] && Utf8.Decode(space[1..]) == Some("");
    assert [' '] + "" == " ";
  }

  // Lemmas about the codec.

  lemma {:induction false} RemoveAllAppend(a: string, b: string, x: char)
    ensures RemoveAll(a + b, x) == RemoveAll(a, x) + RemoveAll(b, x)
    decreases |a|
  {
    if a == [] {
      assert a + b == b;
    } else {
      var h := if a[0] == x then "" else [a[0]];
      calc {
        RemoveAll(a + b, x);
      == { assert (a + b)[0] == a[0] && (a + b)[1..] == a[1..] + b; }
        h + RemoveAll(a[1..] + b, x);
      == { RemoveAllAppend(a[1..], b, x); }
        h + (RemoveAll(a[1..], x) + RemoveAll(b, x));
      ==
        (h + RemoveAll(a[1..], x)) + RemoveAll(b, x);
      }
    }
  }

  lemma {:induction false} RemoveAllAbsent(a: string, x: char)
    requires x !in a
    ensures RemoveAll(a, x) == a
  {
    if a != [] {
      RemoveAllAbsent(a[1..], x);
      assert [a[0]] + a[1..] == a;
    }
  }

  lemma {:induction false} RemoveAllOnly(a: string, x: char)
    requires forall i :: 0 <= i < |a| ==> a[i] == x
    ensures RemoveAll(a, x) == ""
  {
    if a != [] {
      RemoveAllOnly(a[1..], x);
    }
  }

  /** The base64url form of an unpadded standard Base64 body. */
  function UrlBody(body: string): string {
    ReplaceAll(ReplaceAll(body, '+', '-'), '/', '_')
  }

  /** Making `btoa`'s output path-safe leaves exactly the translated body: the
      padding goes and nothing else does. */
  lemma UrlSafeOfEncode(bytes: seq<Wrappers.Byte>)
    ensures ToUrlSafe(Base64.Encode(bytes)) == UrlBody(Base64.EncodeBody(bytes))
    ensures |UrlBody(Base64.EncodeBody(bytes))| == |Base64.EncodeBody(bytes)|
    ensures forall i :: 0 <= i < |UrlBody(Base64.EncodeBody(bytes))| ==> IsUrlSafeChar(UrlBody(Base64.EncodeBody(bytes))[i])
  {
    var body := Base64.EncodeBody(bytes);
    var pad := Base64.Padding(|bytes|);
    var swapped := ReplaceAll(ReplaceAll(body + pad, '+', '-'), '/', '_');
    assert swapped == UrlBody(body) + pad;
    RemoveAllAppend(UrlBody(body), pad, '=');
    RemoveAllAbsent(UrlBody(body), '=');
    RemoveAllOnly(pad, '=');
  }

  /** For a base64url body, undoing the substitutions gives back the body. */
  lemma FromUrlSafeOfUrlBody(body: string)
    requires Base64.AllAlphabet(body)
    ensures FromUrlSafe(UrlBody(body)) == body
  {
  }

  /** Restoring the padding of an unpadded body gives `btoa`'s output back. */
  lemma PaddedBody(bytes: seq<Wrappers.Byte>)
    ensures Padded(Base64.EncodeBody(bytes)) == Base64.Encode(bytes)
  {
    var n := |bytes| % 3;
    MissingAfterBody(|Base64.EncodeBody(bytes)|, n);
    if n == 0 {
      assert PadSigns(0) == Base64.Padding(|bytes|);
    } else if n == 1 {
      assert PadSigns(2) == Base64.Padding(|bytes|);
    } else {
      assert PadSigns(1) == Base64.Padding(|bytes|);
    }
  }

  lemma MissingAfterBody(b: nat, n: nat)
    requires n < 3 && b % 4 == (if n == 0 then 0 else n + 1)
    ensures Missing(b) == (if n == 0 then 0 else 3 - n)
  {
  }

  /** The round trip of the codec: every message that `encodeMessage` accepts
      is given back by `decodeMessage`, non-ASCII text included. */
  lemma RoundTrip(message: string)
    requires !JsText.AllSpace(message)
    ensures EncodeMessage(message).Success?
    ensures Decoded(EncodeMessage(message).value) == Some(message)
  {
    var bytes := Utf8.Encode(message);
    var body := Base64.EncodeBody(bytes);
    var token := EncodeMessage(message).value;
    UrlSafeOfEncode(bytes);
    assert token == UrlBody(body);
    assert token != "";
    assert !JsText.AllSpace(token) by {
      assert IsUrlSafeChar(token[0]);
    }
    FromUrlSafeOfUrlBody(body);
    PaddedBody(bytes);
    Base64.DecodeEncode(bytes);
    Utf8.DecodeEncode(message);
  }

  /** Every link the message form generates passes `isValidEncodedMessage`. */
  lemma EncodedMessagesAreValid(message: string)
    requires !JsText.AllSpace(message)
    ensures EncodeMessage(message).Success?
    ensures IsValidEncodedMessage(EncodeMessage(message).value)
  {
    RoundTrip(message);
  }

  lemma {:induction false} RemoveAsciiWhitespaceKeeps(s: string, i: nat)
    requires i < |s| && !Base64.IsAsciiWhitespace(s[i])
    ensures s[i] in Base64.RemoveAsciiWhitespace(s)
  {
    if i > 0 {
      RemoveAsciiWhitespaceKeeps(s[1..], i - 1);
    }
  }

  /** A token holding a character outside the base64url and standard Base64
      alphabets, `=` and ASCII white space decodes to `None`. */
  lemma ForeignCharacterRejected(token: string, i: nat)
    requires i < |token|
    requires !Base64.IsAlphabetChar(token[i]) && !IsUrlSafeChar(token[i])
    requires token[i] != '=' && !Base64.IsAsciiWhitespace(token[i])
    ensures Decoded(token).None?
  {
    if token != "" && JsText.Trim(token) != "" {
      var c := token[i];
      var p := Padded(FromUrlSafe(token));
      assert p[i] == c;
      RemoveAsciiWhitespaceKeeps(p, i);
      var w := Base64.RemoveAsciiWhitespace(p);
      var d := Base64.StripPadding(w);
      assert c in d by {
        var k :| 0 <= k < |w| && w[k] == c;
        assert w[|w| - 1] == '=' ==> k < |w| - 1;
        assert |w| >= 2 && w[|w| - 2..] == "==" ==> w[|w| - 2] == '=' && w[|w| - 1] == '=' && k < |w| - 2;
        assert d[k] == c;
      }
      assert !Base64.AllAlphabet(d);
    }
  }

  /** A base64url token whose length leaves remainder 1 modulo 4 cannot be a
      complete encoding, and decodes to `None`. */
  lemma LengthOneModFourRejected(token: string)
    requires forall i :: 0 <= i < |token| ==> IsUrlSafeChar(token[i])
    requires |token| % 4 == 1
    ensures Decoded(token).None?
  {
    assert !JsText.IsSpace(token[0]);
    var f := FromUrlSafe(token);
    assert Base64.AllAlphabet(f);
    var p := Padded(f);
    assert p == f + "===";
    Base64.RemoveAsciiWhitespaceNoop(p);
    var d := Base64.StripPadding(p);
    assert p[|p| - 2..] == "==";
    assert d == f + "=";
    assert !Base64.IsAlphabetChar(d[|d| - 1]);
  }
}
