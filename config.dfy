/** The card generator of lib/config.ts: the game's numeric constants, a random
    number in range, rejection sampling of distinct prize numbers, and the win
    test. `Math.random()` is a parameter: each draw is a real in [0, 1). */
module Config {
  import opened Wrappers

  /** SCRATCH_THRESHOLD = 0.4, kept as the exact fraction 4/10. */
  const SCRATCH_THRESHOLD_NUM: nat := 4
  const SCRATCH_THRESHOLD_DEN: nat := 10
  const SCRATCH_RADIUS: nat := 20
  const CARD_WIDTH: nat := 300
  const CARD_HEIGHT: nat := 200
  const MIN_NUMBER: int := 1
  const MAX_NUMBER: int := 10
  const PRIZE_COUNT: int := 6

  /** How many distinct numbers the range [MIN_NUMBER, MAX_NUMBER] holds. */
  const RANGE_SIZE: int := MAX_NUMBER - MIN_NUMBER + 1

  predicate InRange(n: int) {
    MIN_NUMBER <= n <= MAX_NUMBER
  }

  predicate IsRandomDraw(u: real) {
    0.0 <= u < 1.0
  }

  /** `generateRandomNumber`: `Math.floor(u * 10) + 1` for the draw `u`, a
      whole number in [MIN_NUMBER, MAX_NUMBER]. */
  function RandomNumber(u: real): (n: int)
    requires IsRandomDraw(u)
    ensures InRange(n)
    ensures (n - MIN_NUMBER) as real <= u * RANGE_SIZE as real < (n - MIN_NUMBER + 1) as real
  {
    (u * RANGE_SIZE as real).Floor + MIN_NUMBER
  }

  predicate Distinct(xs: seq<int>) {
    forall i, j :: 0 <= i < j < |xs| ==> xs[i] != xs[j]
  }

  /** The distinct values of `xs` in the order of their first occurrence: what
      `Array.from` gives for a `Set` filled from `xs`. */
  function Dedup(xs: seq<int>): (r: seq<int>)
    ensures Distinct(r)
    ensures forall x :: x in r <==> x in xs
    ensures |r| <= |xs|
  {
    if xs == [] then []
    else
      var init := Dedup(xs[..|xs| - 1]);
      var last := xs[|xs| - 1];
      assert forall x :: x in xs <==> x in xs[..|xs| - 1] || x == last by {
        assert xs == xs[..|xs| - 1] + [last];
      }
      if last in init then init else init + [last]
  }

  /** The numbers drawn by a sequence of random draws. */
  function Drawn(draws: seq<real>): (r: seq<int>)
    requires forall i :: 0 <= i < |draws| ==> IsRandomDraw(draws[i])
    ensures |r| == |draws|
    ensures forall i :: 0 <= i < |r| ==> r[i] == RandomNumber(draws[i]) && InRange(r[i])
  {
    seq(|draws|, i requires 0 <= i < |draws| => RandomNumber(draws[i]))
  }

  /** One more draw adds at most one new number to the set. */
  lemma DedupGrowsByOne(xs: seq<int>, x: int)
    ensures Dedup(xs + [x]) == if x in Dedup(xs) then Dedup(xs) else Dedup(xs) + [x]
  {
    assert (xs + [x])[..|xs|] == xs;
  }

  /** The position at which `x` is first drawn. */
  function FirstIndex(xs: seq<int>, x: int): (k: nat)
    requires x in xs
    ensures k < |xs| && xs[k] == x && x !in xs[..k]
  {
    if xs[0] == x then 0
    else
      var k := 1 + FirstIndex(xs[1..], x);
      assert xs[..k] == [xs[0]] + xs[1..][..k - 1];
      k
  }

  /** The first position is the only one holding `x` with no `x` before it. */
  lemma FirstIndexUnique(xs: seq<int>, x: int, k: nat)
    requires k < |xs| && xs[k] == x && x !in xs[..k]
    ensures FirstIndex(xs, x) == k
  {
  }

  /** Drawing more does not move the first draw of a value already drawn. */
  lemma FirstIndexOfPrefix(xs: seq<int>, n: nat, x: int)
    requires n <= |xs| && x in xs[..n]
    ensures FirstIndex(xs, x) == FirstIndex(xs[..n], x)
  {
    var k := FirstIndex(xs[..n], x);
    assert xs[..n][..k] == xs[..k];
    FirstIndexUnique(xs, x, k);
  }

  /** `Array.from` of the set lists the values in the order in which they were
      first drawn. */
  lemma {:induction false} DedupFirstDrawOrder(xs: seq<int>, i: nat, j: nat)
    requires i < j < |Dedup(xs)|
    ensures Dedup(xs)[i] in xs && Dedup(xs)[j] in xs
    ensures FirstIndex(xs, Dedup(xs)[i]) < FirstIndex(xs, Dedup(xs)[j])
    decreases |xs|
  {
    var n := |xs| - 1;
    var init, last := xs[..n], xs[n];
    var d := Dedup(xs);
    assert d[i] in d && d[j] in d;
    assert xs == init + [last];
    DedupGrowsByOne(init, last);
    var di := Dedup(init);
    assert d[i] == di[i] && di[i] in di;
    FirstIndexOfPrefix(xs, n, d[i]);
    if j < |di| {
      assert d[j] == di[j] && di[j] in di;
      FirstIndexOfPrefix(xs, n, d[j]);
      DedupFirstDrawOrder(init, i, j);
    } else {
      assert d[j] == last && last !in init;
      FirstIndexUnique(xs, last, n);
    }
  }

  lemma DrawnPrefix(draws: seq<real>, i: nat)
    requires i < |draws|
    requires forall k :: 0 <= k < |draws| ==> IsRandomDraw(draws[k])
    ensures Drawn(draws[..i + 1]) == Drawn(draws[..i]) + [RandomNumber(draws[i])]
  {
  }

  /** Pigeonhole: distinct numbers from the range are at most RANGE_SIZE many. */
  lemma {:induction false} DistinctInRangeBound(xs: seq<int>, hi: int)
    requires Distinct(xs)
    requires forall i :: 0 <= i < |xs| ==> MIN_NUMBER <= xs[i] <= hi
    ensures |xs| <= if hi < MIN_NUMBER then 0 else hi - MIN_NUMBER + 1
    decreases hi - MIN_NUMBER
  {
    if hi < MIN_NUMBER {
    } else if hi in xs {
      var k :| 0 <= k < |xs| && xs[k] == hi;
      var rest := xs[..k] + xs[k + 1..];
      assert forall i :: 0 <= i < |rest| ==> rest[i] == (if i < k then xs[i] else xs[i + 1]);
      DistinctInRangeBound(rest, hi - 1);
    } else {
      DistinctInRangeBound(xs, hi - 1);
    }
  }

  /** `generatePrizeNumbers(count)`: add drawn numbers to a set while it holds
      fewer than `count`, which defaults to `PRIZE_COUNT`. The random stream is the finite sequence `draws`;
      `None` means it ran out before the set was full (the source keeps
      drawing). On success the result is the first `count` distinct numbers in
      order of first draw, taken from the shortest prefix of the draws that
      holds that many, and `used` is that prefix's length. */
  method GeneratePrizeNumbers(draws: seq<real>, count: int := PRIZE_COUNT) returns (r: Option<seq<int>>, used: nat)
    requires forall i :: 0 <= i < |draws| ==> IsRandomDraw(draws[i])
    ensures r.Some? <==> |Dedup(Drawn(draws))| >= count
    ensures r.Some? ==> used <= |draws| && r.value == Dedup(Drawn(draws[..used]))
    ensures r.Some? ==> |r.value| == if count < 0 then 0 else count
    ensures r.Some? ==> used == 0 || |Dedup(Drawn(draws[..used - 1]))| < count
    ensures r.Some? ==> Distinct(r.value) && forall i :: 0 <= i < |r.value| ==> InRange(r.value[i])
    ensures r.Some? ==> count <= RANGE_SIZE
  {
    var numbers: seq<int> := [];
    var i := 0;
    while |numbers| < count && i < |draws|
      invariant 0 <= i <= |draws|
      invariant numbers == Dedup(Drawn(draws[..i]))
      invariant |numbers| <= if count < 0 then 0 else count
      invariant i > 0 ==> |Dedup(Drawn(draws[..i - 1]))| < count
    {
      var n := RandomNumber(draws[i]);
      DrawnPrefix(draws, i);
      DedupGrowsByOne(Drawn(draws[..i]), n);
      if n !in numbers {
        numbers := numbers + [n];
      }
      i := i + 1;
    }
    if |numbers| < count {
      assert draws[..i] == draws;
      return None, i;
    }
    InRangeOfDedupDrawn(draws[..i]);
    DistinctInRangeBound(numbers, MAX_NUMBER);
    MonotoneDedupDrawn(draws, i);
    r, used := Some(numbers), i;
  }

  lemma InRangeOfDedupDrawn(draws: seq<real>)
    requires forall k :: 0 <= k < |draws| ==> IsRandomDraw(draws[k])
    ensures forall k :: 0 <= k < |Dedup(Drawn(draws))| ==> InRange(Dedup(Drawn(draws))[k])
  {
    var d := Dedup(Drawn(draws));
    forall k | 0 <= k < |d| ensures InRange(d[k]) {
      assert d[k] in Drawn(draws);
    }
  }

  /** The set only grows as more numbers are drawn. */
  lemma {:induction false} MonotoneDedupDrawn(draws: seq<real>, i: nat)
    requires i <= |draws|
    requires forall k :: 0 <= k < |draws| ==> IsRandomDraw(draws[k])
    ensures |Dedup(Drawn(draws[..i]))| <= |Dedup(Drawn(draws))|
    decreases |draws| - i
  {
    if i < |draws| {
      DrawnPrefix(draws, i);
      DedupGrowsByOne(Drawn(draws[..i]), RandomNumber(draws[i]));
      MonotoneDedupDrawn(draws, i + 1);
    } else {
      assert draws[..i] == draws;
    }
  }

  /** The default PRIZE_COUNT fits the range, so the filling loop can finish. */
  lemma DefaultPrizeCountFits()
    ensures 0 <= PRIZE_COUNT <= RANGE_SIZE
  {
  }

  /** `checkWin`: the player's number is one of the prize numbers. */
  function CheckWin(yourNumber: int, prizeNumbers: seq<int>): (r: bool)
    ensures r <==> exists i :: 0 <= i < |prizeNumbers| && prizeNumbers[i] == yourNumber
  {
    yourNumber in prizeNumbers
  }
}
