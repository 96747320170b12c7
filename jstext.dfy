/** The JavaScript string built-ins the core relies on: `String.prototype.trim`
    and `split(/\s+/)`. Both use the ECMAScript WhiteSpace and LineTerminator
    code points, which are also what the regular-expression class `\s` matches. */
module JsText {

  /** ECMAScript WhiteSpace (TAB, VT, FF, ZWNBSP and the Unicode category Zs)
      together with LineTerminator (LF, CR, LS, PS). */
  predicate IsSpace(c: char) {
    c == '\t' || c == '\n' || c == '\U{000B}' || c == '\U{000C}' || c == '\r'
    || c == ' ' || c == '\U{00A0}' || c == '\U{1680}'
    || ('\U{2000}' <= c <= '\U{200A}')
    || c == '\U{2028}' || c == '\U{2029}' || c == '\U{202F}' || c == '\U{205F}'
    || c == '\U{3000}' || c == '\U{FEFF}'
  }

  predicate AllSpace(s: string) {
    forall i :: 0 <= i < |s| ==> IsSpace(s[i])
  }

  predicate NoSpace(s: string) {
    forall i :: 0 <= i < |s| ==> !IsSpace(s[i])
  }

  /** Number of leading white-space code points of `s`. */
  function LeadingSpace(s: string): (k: nat)
    ensures k <= |s| && AllSpace(s[..k])
    ensures k < |s| ==> !IsSpace(s[k])
  {
    if s == [] || !IsSpace(s[0]) then 0
    else
      var k := 1 + LeadingSpace(s[1..]);
      assert s[..k] == [s[0]] + s[1..][..k - 1];
      k
  }

  /** Length of `s` once its trailing white space is cut off. */
  function TrailingStart(s: string): (k: nat)
    ensures k <= |s| && AllSpace(s[k..])
    ensures 0 < k ==> !IsSpace(s[k - 1])
  {
    if s == [] || !IsSpace(s[|s| - 1]) then |s|
    else
      var k := TrailingStart(s[..|s| - 1]);
      assert s[k..] == s[..|s| - 1][k..] + [s[|s| - 1]];
      k
  }

  /** `String.prototype.trim`: the slice of `s` between its leading and its
      trailing white space. */
  function Trim(s: string): (r: string)
    ensures r == "" <==> AllSpace(s)
    ensures r != "" ==> !IsSpace(r[0]) && !IsSpace(r[|r| - 1])
    ensures exists i :: 0 <= i <= |s| - |r| && s[i..i + |r|] == r
                        && AllSpace(s[..i]) && AllSpace(s[i + |r|..])
  {
    var i := LeadingSpace(s);
    var t := s[i..];
    var j := TrailingStart(t);
    assert s[i..i + j] == t[..j] && s[i + j..] == t[j..];
    t[..j]
  }

  /** Index of the first white-space code point of `s` at or after `i`, or `|s|`. */
  function FieldEnd(s: string, i: nat): (j: nat)
    requires i <= |s|
    ensures i <= j <= |s| && NoSpace(s[i..j])
    ensures j < |s| ==> IsSpace(s[j])
    decreases |s| - i
  {
    if i == |s| || IsSpace(s[i]) then i
    else
      var j := FieldEnd(s, i + 1);
      assert s[i..j] == [s[i]] + s[i + 1..j];
      j
  }

  /** Index of the first non-white-space code point of `s` at or after `i`, or `|s|`. */
  function RunEnd(s: string, i: nat): (j: nat)
    requires i <= |s|
    ensures i <= j <= |s| && AllSpace(s[i..j])
    ensures j < |s| ==> !IsSpace(s[j])
    ensures i < |s| && !IsSpace(s[|s| - 1]) ==> j < |s|
    decreases |s| - i
  {
    if i == |s| || !IsSpace(s[i]) then i
    else
      var j := RunEnd(s, i + 1);
      assert s[i..j] == [s[i]] + s[i + 1..j];
      j
  }

  /** `s.split(/\s+/)`: the pieces of `s` between maximal runs of white space.
      A leading or trailing run yields an empty first or last piece, and the
      empty string splits into `[""]`, as in JavaScript. */
  function Split(s: string): (r: seq<string>)
    ensures |r| >= 1
    ensures forall k :: 0 <= k < |r| ==> NoSpace(r[k])
    decreases |s|
  {
    var k := FieldEnd(s, 0);
    if k == |s| then [s]
    else [s[..k]] + Split(s[RunEnd(s, k)..])
  }

  /** The concatenation of a sequence of strings. */
  function Concat(parts: seq<string>): string {
    if parts == [] then "" else parts[0] + Concat(parts[1..])
  }

  /** `s` with every white-space code point dropped. */
  function WithoutSpace(s: string): (r: string)
    ensures NoSpace(r) && |r| <= |s|
  {
    if s == [] then ""
    else if IsSpace(s[0]) then WithoutSpace(s[1..])
    else [s[0]] + WithoutSpace(s[1..])
  }

  lemma {:induction false} WithoutSpaceAppend(a: string, b: string)
    ensures WithoutSpace(a + b) == WithoutSpace(a) + WithoutSpace(b)
    decreases |a|
  {
    if a != [] {
      assert (a + b)[1..] == a[1..] + b;
      WithoutSpaceAppend(a[1..], b);
    } else {
      assert a + b == b;
    }
  }

  lemma {:induction false} WithoutSpaceOfNoSpace(s: string)
    requires NoSpace(s)
    ensures WithoutSpace(s) == s
  {
    if s != [] {
      WithoutSpaceOfNoSpace(s[1..]);
    }
  }

  lemma {:induction false} WithoutSpaceOfAllSpace(s: string)
    requires AllSpace(s)
    ensures WithoutSpace(s) == ""
  {
    if s != [] {
      WithoutSpaceOfAllSpace(s[1..]);
    }
  }

  lemma WithoutSpaceOfFieldAndRun(s: string, k: nat, e: nat)
    requires k <= e <= |s| && NoSpace(s[..k]) && AllSpace(s[k..e])
    ensures WithoutSpace(s) == s[..k] + WithoutSpace(s[e..])
  {
    var a, b, c := s[..k], s[k..e], s[e..];
    assert s == (a + b) + c;
    calc {
      WithoutSpace(s);
    == { WithoutSpaceAppend(a + b, c); }
      WithoutSpace(a + b) + WithoutSpace(c);
    == { WithoutSpaceAppend(a, b); }
      WithoutSpace(a) + WithoutSpace(b) + WithoutSpace(c);
    == { WithoutSpaceOfNoSpace(a); WithoutSpaceOfAllSpace(b); }
      a + "" + WithoutSpace(c);
    == { assert a + "" == a; }
      a + WithoutSpace(c);
    }
  }

  /** Splitting loses exactly the white space: gluing the pieces back together
      gives `s` with its white space removed. */
  lemma {:induction false} SplitKeepsText(s: string)
    ensures Concat(Split(s)) == WithoutSpace(s)
    decreases |s|
  {
    var k := FieldEnd(s, 0);
    if k == |s| {
      assert s[0..k] == s;
      WithoutSpaceOfNoSpace(s);
      assert Concat([s]) == s + Concat([]);
    } else {
      var e := RunEnd(s, k);
      var r := Split(s);
      assert r == [s[..k]] + Split(s[e..]);
      assert r[1..] == Split(s[e..]);
      SplitKeepsText(s[e..]);
      assert s[0..k] == s[..k];
      WithoutSpaceOfFieldAndRun(s, k, e);
    }
  }

  /** A string with no white space at either end splits into non-empty words,
      unless it is empty, which splits into the single empty piece. */
  lemma {:induction false} SplitTrimmedWords(s: string)
    requires s == "" || (!IsSpace(s[0]) && !IsSpace(s[|s| - 1]))
    ensures s == "" ==> Split(s) == [""]
    ensures s != "" ==> forall k :: 0 <= k < |Split(s)| ==> Split(s)[k] != ""
    decreases |s|
  {
    if s != "" {
      var k := FieldEnd(s, 0);
      if k < |s| {
        var e := RunEnd(s, k);
        assert s[e..][|s[e..]| - 1] == s[|s| - 1];
        SplitTrimmedWords(s[e..]);
        assert s[..k] != "" by { assert k > 0; }
        var r := Split(s);
        assert r == [s[..k]] + Split(s[e..]);
        forall j | 0 <= j < |r| ensures r[j] != "" {
          if j > 0 { assert r[j] == Split(s[e..])[j - 1]; }
        }
      }
    }
  }

  /** The words of a message: `s.trim().split(/\s+/)`. */
  function Words(s: string): (ws: seq<string>)
    ensures AllSpace(s) ==> ws == [""]
    ensures !AllSpace(s) ==> forall k :: 0 <= k < |ws| ==> ws[k] != "" && NoSpace(ws[k])
    ensures Concat(ws) == WithoutSpace(Trim(s))
  {
    SplitTrimmedWords(Trim(s));
    SplitKeepsText(Trim(s));
    Split(Trim(s))
  }

  // Where `split(/\s+/)` breaks, stated independently of `FieldEnd` and
  // `RunEnd`: by the string the pieces and the separators rebuild, and by
  // counting maximal runs of one kind of code point.

  /** `pieces[0] + seps[0] + pieces[1] + ... + pieces[|seps|]`. */
  function Joined(pieces: seq<string>, seps: seq<string>): string
    requires |pieces| == |seps| + 1
    decreases |seps|
  {
    if seps == [] then pieces[0] else pieces[0] + seps[0] + Joined(pieces[1..], seps[1..])
  }

  /** `s` is `pieces` joined by non-empty white-space separators `seps`, and
      every piece between two separators is non-empty. */
  predicate SeparatedBy(s: string, pieces: seq<string>, seps: seq<string>) {
    && |pieces| == |seps| + 1
    && (forall k :: 0 <= k < |seps| ==> seps[k] != "" && AllSpace(seps[k]))
    && (forall k :: 0 < k < |seps| ==> pieces[k] != "")
    && Joined(pieces, seps) == s
  }

  /** The pieces of `split(/\s+/)` lie exactly between the maximal runs of
      white space: `s` is its pieces joined by non-empty white-space
      separators, with no empty piece between two separators. */
  lemma {:induction false} SplitSeparators(s: string)
    ensures exists seps :: SeparatedBy(s, Split(s), seps)
    decreases |s|
  {
    var k := FieldEnd(s, 0);
    if k == |s| {
      assert Split(s) == [s];
      assert SeparatedBy(s, Split(s), []);
    } else {
      var e := RunEnd(s, k);
      var t := s[e..];
      SplitSeparators(t);
      var rest :| SeparatedBy(t, Split(t), rest);
      assert Split(s) == [s[..k]] + Split(t);
      SeparatedByStep(s, k, e, Split(t), rest);
    }
  }

  /** One field and the white-space run after it extend a separation of the
      rest of the string. */
  lemma SeparatedByStep(s: string, k: nat, e: nat, pieces: seq<string>, rest: seq<string>)
    requires k < e <= |s| && AllSpace(s[k..e])
    requires e < |s| ==> !IsSpace(s[e])
    requires SeparatedBy(s[e..], pieces, rest)
    requires rest != [] ==> pieces[0] == s[e..][..FieldEnd(s[e..], 0)]
    ensures SeparatedBy(s, [s[..k]] + pieces, [s[k..e]] + rest)
  {
    var r, seps := [s[..k]] + pieces, [s[k..e]] + rest;
    assert r[1..] == pieces && seps[1..] == rest;
    assert Joined(r, seps) == s[..k] + s[k..e] + s[e..];
    assert s == s[..k] + s[k..e] + s[e..];
    forall j | 0 < j < |seps|
      ensures r[j] != ""
    {
      if j == 1 {
        assert s[e..] != [] by { assert Joined(pieces, rest) == s[e..]; assert |rest| > 0; }
        assert FieldEnd(s[e..], 0) > 0;
      } else {
        assert r[j] == pieces[j - 1];
      }
    }
  }

  /** The number of maximal runs in `s` of code points that are white space
      (`space`) or not (`!space`); `inRun` says whether the code point before
      `s` already belongs to such a run. */
  function CountRuns(s: string, space: bool, inRun: bool): nat
    decreases |s|
  {
    if s == [] then 0
    else
      var here := IsSpace(s[0]) == space;
      (if here && !inRun then 1 else 0) + CountRuns(s[1..], space, here)
  }

  /** Maximal runs of white space. */
  function SpaceRuns(s: string): nat {
    CountRuns(s, true, false)
  }

  /** Maximal runs of non-white-space code points: the words of `s`. */
  function WordRuns(s: string): nat {
    CountRuns(s, false, false)
  }

  lemma {:induction false} CountRunsAppend(a: string, b: string, space: bool, inRun: bool)
    ensures CountRuns(a + b, space, inRun)
      == CountRuns(a, space, inRun) + CountRuns(b, space, if a == [] then inRun else IsSpace(a[|a| - 1]) == space)
    decreases |a|
  {
    if a == [] {
      assert a + b == b;
    } else {
      assert (a + b)[0] == a[0] && (a + b)[1..] == a[1..] + b;
      CountRunsAppend(a[1..], b, space, IsSpace(a[0]) == space);
      if a[1..] != [] {
        assert a[1..][|a[1..]| - 1] == a[|a| - 1];
      }
    }
  }

  lemma {:induction false} RunsOfNoSpace(s: string, inRun: bool)
    requires NoSpace(s)
    ensures CountRuns(s, true, inRun) == 0
    ensures CountRuns(s, false, inRun) == (if s != [] && !inRun then 1 else 0)
    decreases |s|
  {
    if s != [] {
      RunsOfNoSpace(s[1..], true);
      RunsOfNoSpace(s[1..], false);
    }
  }

  lemma {:induction false} RunsOfAllSpace(s: string, inRun: bool)
    requires AllSpace(s)
    ensures CountRuns(s, false, inRun) == 0
    ensures CountRuns(s, true, inRun) == (if s != [] && !inRun then 1 else 0)
    decreases |s|
  {
    if s != [] {
      RunsOfAllSpace(s[1..], true);
      RunsOfAllSpace(s[1..], false);
    }
  }

  /** `split(/\s+/)` yields one piece more than there are runs of white space. */
  lemma {:induction false} SplitCountsSpaceRuns(s: string)
    ensures |Split(s)| == 1 + SpaceRuns(s)
    decreases |s|
  {
    var k := FieldEnd(s, 0);
    if k == |s| {
      assert s[0..k] == s;
      RunsOfNoSpace(s, false);
    } else {
      var e := RunEnd(s, k);
      var a, b, t := s[..k], s[k..e], s[e..];
      assert s == a + (b + t);
      assert NoSpace(a) by { assert s[0..k] == a; }
      assert a != [] ==> !IsSpace(a[|a| - 1]);
      CountRunsAppend(a, b + t, true, false);
      CountRunsAppend(b, t, true, false);
      assert b != [] && IsSpace(b[|b| - 1]);
      RunsOfNoSpace(a, false);
      RunsOfAllSpace(b, false);
      assert CountRuns(t, true, true) == CountRuns(t, true, false);
      SplitCountsSpaceRuns(t);
    }
  }

  /** Runs of the two kinds alternate: in a non-empty string, given whether
      the code point before it was white space (`!p`), the word runs and the
      white-space runs differ by where the string starts and ends. */
  lemma {:induction false} RunsAlternate(s: string, p: bool)
    requires s != []
    ensures CountRuns(s, false, p) + (if p then 1 else 0)
      == CountRuns(s, true, !p) + (if IsSpace(s[|s| - 1]) then 0 else 1)
    decreases |s|
  {
    if |s| > 1 {
      RunsAlternate(s[1..], !IsSpace(s[0]));
      assert s[1..][|s[1..]| - 1] == s[|s| - 1];
    }
  }

  /** White space around a string adds no word run. */
  lemma WordRunsAround(a: string, r: string, c: string)
    requires AllSpace(a) && AllSpace(c)
    ensures WordRuns(a + (r + c)) == WordRuns(r)
  {
    CountRunsAppend(a, r + c, false, false);
    RunsOfAllSpace(a, false);
    assert a != [] ==> IsSpace(a[|a| - 1]);
    CountRunsAppend(r, c, false, false);
    RunsOfAllSpace(c, false);
    RunsOfAllSpace(c, true);
  }

  /** Trimming removes no word run. */
  lemma WordRunsOfTrim(s: string)
    ensures WordRuns(Trim(s)) == WordRuns(s)
  {
    var i := LeadingSpace(s);
    var t := s[i..];
    var j := TrailingStart(t);
    assert Trim(s) == t[..j];
    assert s == s[..i] + (t[..j] + t[j..]);
    WordRunsAround(s[..i], t[..j], t[j..]);
  }

  /** The number of words is the number of maximal runs of non-white-space
      code points of the message; a blank message has none and still splits
      into the single piece `""`. */
  lemma WordsCountsWordRuns(s: string)
    ensures WordRuns(s) == 0 <==> AllSpace(s)
    ensures |Words(s)| == if AllSpace(s) then 1 else WordRuns(s)
  {
    var r := Trim(s);
    WordRunsOfTrim(s);
    if r == "" {
      RunsOfAllSpace(s, false);
    } else {
      SplitCountsSpaceRuns(r);
      RunsAlternate(r, false);
    }
  }
}
