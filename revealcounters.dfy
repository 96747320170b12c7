/** The "all revealed" counters of components/Card.tsx and
    components/PrizeScratcher.tsx. Each counts the reveals reported by its
    scratch surfaces and calls `onAllRevealed` on every reveal that brings the
    count to its target or beyond. Each surface reports at most once (see
    `ScratchCard.ScratchSurface`), which is what makes the callback fire
    exactly once, at the last surface. */
module RevealCounters {

  /** How often the callback has been called after `n` reveals, for a counter
      with target `target`. */
  function CallsAfter(target: int, hasCallback: bool, n: nat): (c: nat)
    ensures c <= n
    ensures !hasCallback ==> c == 0
  {
    if n == 0 then 0
    else CallsAfter(target, hasCallback, n - 1) + (if hasCallback && n >= target then 1 else 0)
  }

  /** Closed form: one call for each reveal from the target on (from the
      first reveal on when the target is 0 or less). */
  lemma {:induction false} CallsClosedForm(target: int, hasCallback: bool, n: nat)
    ensures var first := if target < 1 then 1 else target;
      CallsAfter(target, hasCallback, n) == if hasCallback && n >= first then n - first + 1 else 0
  {
    if n > 0 {
      CallsClosedForm(target, hasCallback, n - 1);
    }
  }

  /** The identifiers `0 .. n-1` of a counter's surfaces. */
  function Surfaces(n: int): (s: set<nat>)
    ensures forall i: nat :: i in s <==> i < n
    ensures |s| == if n < 0 then 0 else n
  {
    if n <= 0 then {} else Surfaces(n - 1) + {n - 1}
  }

  /** A set of surfaces has at most as many members as there are surfaces,
      and as many only when it holds them all. */
  lemma {:induction false} RevealedSurfacesBound(revealed: set<nat>, n: nat)
    requires revealed <= Surfaces(n)
    ensures |revealed| <= n
    ensures |revealed| == n ==> revealed == Surfaces(n)
  {
    var rest := Surfaces(n) - revealed;
    assert Surfaces(n) == revealed + rest && revealed !! rest;
    if revealed != Surfaces(n) {
      var missing :| missing in Surfaces(n) && missing !in revealed;
      assert missing in rest;
    }
  }

  /** With every surface reporting at most once, the callback has been called
      at most once, and once exactly when every surface has reported. */
  lemma AtMostOnce(target: int, hasCallback: bool, revealed: set<nat>)
    requires revealed <= Surfaces(target)
    ensures CallsAfter(target, hasCallback, |revealed|) <= 1
    ensures CallsAfter(target, hasCallback, |revealed|) == 1 <==> hasCallback && 1 <= target && revealed == Surfaces(target)
  {
    var n: nat := if target < 0 then 0 else target;
    assert Surfaces(target) == Surfaces(n);
    RevealedSurfacesBound(revealed, n);
    CallsClosedForm(target, hasCallback, |revealed|);
  }

  /** One more surface reporting keeps the reported set within the surfaces
      and grows it by one. */
  lemma AddSurface(revealed: set<nat>, surface: nat, n: int)
    requires revealed <= Surfaces(n) && surface < n && surface !in revealed
    ensures revealed + {surface} <= Surfaces(n) && |revealed + {surface}| == |revealed| + 1
  {
  }

  /** `Card`: one "your number" surface and one surface per prize number. */
  class Card {
    const totalCards: int
    const hasOnAllRevealed: bool
    var revealedCount: int
    var allRevealedCalls: nat
    /** Which surfaces have reported, 0 being "your number". */
    ghost var revealedSurfaces: set<nat>

    ghost predicate Valid()
      reads this
    {
      && revealedSurfaces <= Surfaces(totalCards)
      && revealedCount == |revealedSurfaces|
      && allRevealedCalls == CallsAfter(totalCards, hasOnAllRevealed, revealedCount)
    }

    constructor(prizeNumbers: seq<int>, hasOnAllRevealed: bool)
      ensures Valid()
      ensures totalCards == |prizeNumbers| + 1 && this.hasOnAllRevealed == hasOnAllRevealed
      ensures revealedCount == 0 && allRevealedCalls == 0
    {
      totalCards := |prizeNumbers| + 1;
      this.hasOnAllRevealed := hasOnAllRevealed;
      revealedCount := 0;
      allRevealedCalls := 0;
      revealedSurfaces := {};
    }

    /** `handleCardRevealed`, called by surface `surface` when it reveals. */
    method HandleCardRevealed(ghost surface: nat) returns (fired: bool)
      requires Valid() && surface < totalCards && surface !in revealedSurfaces
      modifies this
      ensures Valid()
      ensures revealedCount == old(revealedCount) + 1 && revealedSurfaces == old(revealedSurfaces) + {surface}
      ensures fired <==> revealedCount >= totalCards && hasOnAllRevealed
      ensures allRevealedCalls == old(allRevealedCalls) + (if fired then 1 else 0)
      ensures allRevealedCalls <= 1
      ensures allRevealedCalls == 1 <==> hasOnAllRevealed && revealedSurfaces == Surfaces(totalCards)
    {
      AddSurface(revealedSurfaces, surface, totalCards);
      revealedSurfaces := revealedSurfaces + {surface};
      revealedCount := revealedCount + 1;
      fired := false;
      if revealedCount >= totalCards && hasOnAllRevealed {
        allRevealedCalls := allRevealedCalls + 1;
        fired := true;
      }
      AtMostOnce(totalCards, hasOnAllRevealed, revealedSurfaces);
    }
  }

  /** `PrizeScratcher`: one surface per prize number and nothing else. */
  class PrizeScratcher {
    const prizeCount: int
    const hasOnAllRevealed: bool
    var revealedCount: int
    var allRevealedCalls: nat
    ghost var revealedSurfaces: set<nat>

    ghost predicate Valid()
      reads this
    {
      && revealedSurfaces <= Surfaces(prizeCount)
      && revealedCount == |revealedSurfaces|
      && allRevealedCalls == CallsAfter(prizeCount, hasOnAllRevealed, revealedCount)
    }

    constructor(prizeNumbers: seq<int>, hasOnAllRevealed: bool)
      ensures Valid()
      ensures prizeCount == |prizeNumbers| && this.hasOnAllRevealed == hasOnAllRevealed
      ensures revealedCount == 0 && allRevealedCalls == 0
    {
      prizeCount := |prizeNumbers|;
      this.hasOnAllRevealed := hasOnAllRevealed;
      revealedCount := 0;
      allRevealedCalls := 0;
      revealedSurfaces := {};
    }

    /** `handlePrizeRevealed`, called by prize surface `surface`. */
    method HandlePrizeRevealed(ghost surface: nat) returns (fired: bool)
      requires Valid() && surface < prizeCount && surface !in revealedSurfaces
      modifies this
      ensures Valid()
      ensures revealedCount == old(revealedCount) + 1 && revealedSurfaces == old(revealedSurfaces) + {surface}
      ensures fired <==> revealedCount >= prizeCount && hasOnAllRevealed
      ensures allRevealedCalls == old(allRevealedCalls) + (if fired then 1 else 0)
      ensures allRevealedCalls <= 1
      ensures allRevealedCalls == 1 <==> hasOnAllRevealed && revealedSurfaces == Surfaces(prizeCount)
    {
      AddSurface(revealedSurfaces, surface, prizeCount);
      revealedSurfaces := revealedSurfaces + {surface};
      revealedCount := revealedCount + 1;
      fired := false;
      if revealedCount >= prizeCount && hasOnAllRevealed {
        allRevealedCalls := allRevealedCalls + 1;
        fired := true;
      }
      AtMostOnce(prizeCount, hasOnAllRevealed, revealedSurfaces);
    }
  }
}
