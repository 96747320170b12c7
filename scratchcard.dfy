/** The reveal state machine of components/ScratchCard.tsx. The overlay canvas
    is its RGBA byte buffer; a brush stroke is abstracted as a per-pixel
    coverage byte, erased with `destination-out`; every fifth stroke the
    fully transparent pixels are counted, and at 40% coverage the overlay is
    cleared and `onReveal` fires, once. */
module ScratchCard {
  import opened Wrappers
  import Config

  /** `OVERLAY_COLOR` '#d4d4d8', drawn fully opaque. */
  const OVERLAY_RED: Byte := 0xD4
  const OVERLAY_GREEN: Byte := 0xD4
  const OVERLAY_BLUE: Byte := 0xD8
  const OPAQUE: Byte := 0xFF

  /** Alpha after `destination-out` with a brush covering the pixel to the
      degree `coverage` (0 = untouched, 255 = fully covered): the old alpha
      scaled by the uncovered part, rounded down. */
  function ErasedAlpha(alpha: Byte, coverage: Byte): (r: Byte)
    ensures r <= alpha
    ensures alpha == 0 || coverage == 0xFF ==> r == 0
    ensures coverage == 0 ==> r == alpha
  {
    alpha * (0xFF - coverage) / 0xFF
  }

  /** The buffer after one stroke: every alpha byte (index 3 mod 4) erased by
      the coverage of its pixel, colour bytes untouched. */
  function ErasedPixels(px: seq<Byte>, coverage: seq<Byte>): (r: seq<Byte>)
    requires |px| == 4 * |coverage|
    ensures |r| == |px|
    ensures forall i :: 0 <= i < |px| && i % 4 != 3 ==> r[i] == px[i]
    ensures forall i :: 0 <= i < |px| && i % 4 == 3 ==> r[i] <= px[i] && (px[i] == 0 ==> r[i] == 0)
  {
    seq(|px|, i requires 0 <= i < |px| => if i % 4 == 3 then ErasedAlpha(px[i], coverage[i / 4]) else px[i])
  }

  /** Number of the first `n` pixels whose alpha byte is 0. */
  function TransparentCount(px: seq<Byte>, n: nat): (c: nat)
    requires 4 * n <= |px|
    ensures c <= n
  {
    if n == 0 then 0
    else TransparentCount(px, n - 1) + (if px[4 * (n - 1) + 3] == 0 then 1 else 0)
  }

  /** The reveal test `transparent / totalPixels >= 0.4`, cross-multiplied;
      with no pixels the quotient is NaN and the test fails. */
  predicate ReachesThreshold(transparent: nat, totalPixels: nat) {
    totalPixels > 0 && Config.SCRATCH_THRESHOLD_DEN * transparent >= Config.SCRATCH_THRESHOLD_NUM * totalPixels
  }

  /** The integer test is the quotient test on exact ratios. */
  lemma ThresholdIsRatio(transparent: nat, totalPixels: nat)
    requires totalPixels > 0
    ensures ReachesThreshold(transparent, totalPixels) <==> (transparent as real) / (totalPixels as real) >= 0.4
  {
    var q := (transparent as real) / (totalPixels as real);
    assert q * (totalPixels as real) == transparent as real;
    if q >= 0.4 {
      assert q * (totalPixels as real) >= 0.4 * (totalPixels as real);
    } else {
      assert q * (totalPixels as real) < 0.4 * (totalPixels as real);
    }
  }

  /** A stroke never makes a transparent pixel opaque again, so the count
      never drops between resets. */
  lemma {:induction false} ErasingKeepsTransparent(px: seq<Byte>, coverage: seq<Byte>, n: nat)
    requires |px| == 4 * |coverage| && 4 * n <= |px|
    ensures TransparentCount(ErasedPixels(px, coverage), n) >= TransparentCount(px, n)
  {
    if n > 0 {
      ErasingKeepsTransparent(px, coverage, n - 1);
    }
  }

  /** A fully covering stroke leaves every pixel transparent. */
  lemma {:induction false} FullStrokeClearsAll(px: seq<Byte>, coverage: seq<Byte>, n: nat)
    requires |px| == 4 * |coverage| && 4 * n <= |px|
    requires forall p :: 0 <= p < |coverage| ==> coverage[p] == 0xFF
    ensures TransparentCount(ErasedPixels(px, coverage), n) == n
  {
    if n > 0 {
      FullStrokeClearsAll(px, coverage, n - 1);
      assert coverage[(4 * (n - 1) + 3) / 4] == 0xFF;
    }
  }

  /** A buffer with every alpha byte at `alpha` counts all pixels when the
      alpha is 0 and none otherwise. */
  lemma {:induction false} UniformAlphaCount(px: seq<Byte>, alpha: Byte, n: nat)
    requires 4 * n <= |px|
    requires forall i :: 0 <= i < |px| && i % 4 == 3 ==> px[i] == alpha
    ensures TransparentCount(px, n) == if alpha == 0 then n else 0
  {
    if n > 0 {
      UniformAlphaCount(px, alpha, n - 1);
      assert (4 * (n - 1) + 3) % 4 == 3;
    }
  }

  predicate IsOpaqueOverlay(px: seq<Byte>) {
    forall i :: 0 <= i < |px| ==>
      px[i] == (if i % 4 == 0 then OVERLAY_RED else if i % 4 == 1 then OVERLAY_GREEN else if i % 4 == 2 then OVERLAY_BLUE else OPAQUE)
  }

  predicate IsCleared(px: seq<Byte>) {
    forall i :: 0 <= i < |px| ==> px[i] == 0
  }

  /** One mounted scratch card: the overlay canvas, the stroke counter
      (`scratchedPixelsRef`), `hasRevealed`, `isScratching`, whether an
      `onReveal` callback was given and how often it has been called. */
  class ScratchSurface {
    const width: nat
    const height: nat
    const hasOnReveal: bool
    const overlay: array<Byte>
    var strokes: int
    var hasRevealed: bool
    var isScratching: bool
    var revealCalls: nat

    ghost predicate Valid()
      reads this
    {
      && overlay.Length == 4 * (width * height)
      && revealCalls <= 1
      && (revealCalls == 1 ==> hasRevealed && hasOnReveal)
    }

    /** Number of pixels, `width * height`. */
    function TotalPixels(): (n: nat)
      reads this
      ensures Valid() ==> overlay.Length == 4 * n
    {
      width * height
    }

    /** A surface as first rendered: a fresh, transparent canvas; revealed
        already when the card is shown as revealed. */
    constructor(width: nat, height: nat, isRevealed: bool, hasOnReveal: bool)
      ensures Valid()
      ensures this.width == width && this.height == height && this.hasOnReveal == hasOnReveal
      ensures hasRevealed == isRevealed && !isScratching && strokes == 0 && revealCalls == 0
      ensures fresh(overlay) && IsCleared(overlay[..])
    {
      this.width := width;
      this.height := height;
      this.hasOnReveal := hasOnReveal;
      overlay := new Byte[4 * (width * height)](_ => 0);
      strokes := 0;
      hasRevealed := isRevealed;
      isScratching := false;
      revealCalls := 0;
    }

    /** The overlay effect: unless revealed, paint the overlay opaque and
        reset the stroke counter. */
    method InitOverlay()
      requires Valid()
      modifies this, overlay
      ensures Valid()
      ensures old(hasRevealed) ==> unchanged(this) && unchanged(overlay)
      ensures !old(hasRevealed) ==> IsOpaqueOverlay(overlay[..]) && strokes == 0
      ensures hasRevealed == old(hasRevealed) && isScratching == old(isScratching) && revealCalls == old(revealCalls)
    {
      if hasRevealed {
        return;
      }
      forall i | 0 <= i < overlay.Length {
        overlay[i] := if i % 4 == 0 then OVERLAY_RED else if i % 4 == 1 then OVERLAY_GREEN else if i % 4 == 2 then OVERLAY_BLUE else OPAQUE;
      }
      strokes := 0;
    }

    /** The counting loop over the alpha bytes of the overlay's image data. */
    method CountTransparent() returns (transparent: nat)
      requires Valid()
      ensures transparent == TransparentCount(overlay[..], TotalPixels())
      ensures transparent <= TotalPixels()
    {
      ghost var px := overlay[..];
      ghost var n := TotalPixels();
      ghost var k := 0;
      transparent := 0;
      var i := 3;
      while i < overlay.Length
        invariant i == 4 * k + 3 && k <= n
        invariant transparent == TransparentCount(px, k)
      {
        assert px[4 * k + 3] == overlay[i];
        if overlay[i] == 0 {
          transparent := transparent + 1;
        }
        i := i + 4;
        k := k + 1;
      }
    }

    /** `handleReveal`: a no-op once revealed; otherwise clear the whole
        overlay, mark it revealed and call `onReveal` if there is one. */
    method HandleReveal()
      requires Valid()
      modifies this, overlay
      ensures Valid() && hasRevealed
      ensures old(hasRevealed) ==> unchanged(this) && unchanged(overlay)
      ensures !old(hasRevealed) ==> IsCleared(overlay[..]) && revealCalls == (if hasOnReveal then 1 else 0)
      ensures strokes == old(strokes) && isScratching == old(isScratching)
    {
      if hasRevealed {
        return;
      }
      forall i | 0 <= i < overlay.Length {
        overlay[i] := 0;
      }
      hasRevealed := true;
      if hasOnReveal {
        revealCalls := revealCalls + 1;
      }
    }

    /** `scratch`: a no-op once revealed; otherwise erase under the brush,
        count the stroke, and on every fifth stroke reveal when at least 40%
        of the pixels are transparent. */
    method Scratch(coverage: seq<Byte>)
      requires Valid() && |coverage| == TotalPixels()
      modifies this, overlay
      ensures Valid()
      ensures old(hasRevealed) ==> unchanged(this) && unchanged(overlay)
      ensures !old(hasRevealed) ==>
        var erased := ErasedPixels(old(overlay[..]), coverage);
        var fires := strokes % 5 == 0 && ReachesThreshold(TransparentCount(erased, TotalPixels()), TotalPixels());
        && strokes == old(strokes) + 1
        && (fires ==> hasRevealed && IsCleared(overlay[..]) && revealCalls == (if hasOnReveal then 1 else 0))
        && (!fires ==> !hasRevealed && overlay[..] == erased && revealCalls == 0)
      ensures isScratching == old(isScratching)
    {
      if hasRevealed {
        return;
      }
      ghost var before := overlay[..];
      forall i | 0 <= i < overlay.Length && i % 4 == 3 {
        overlay[i] := ErasedAlpha(overlay[i], coverage[i / 4]);
      }
      assert overlay[..] == ErasedPixels(before, coverage);
      strokes := strokes + 1;
      if strokes % 5 != 0 {
        return;
      }
      var transparent := CountTransparent();
      if ReachesThreshold(transparent, TotalPixels()) {
        HandleReveal();
      }
    }

    /** `handleMouseDown` / `handleTouchStart`: start scratching and scratch. */
    method PointerDown(coverage: seq<Byte>)
      requires Valid() && |coverage| == TotalPixels()
      modifies this, overlay
      ensures Valid()
      ensures old(hasRevealed) ==> unchanged(this) && unchanged(overlay)
      ensures !old(hasRevealed) ==>
        var erased := ErasedPixels(old(overlay[..]), coverage);
        var fires := strokes % 5 == 0 && ReachesThreshold(TransparentCount(erased, TotalPixels()), TotalPixels());
        && isScratching && strokes == old(strokes) + 1
        && (fires ==> hasRevealed && IsCleared(overlay[..]) && revealCalls == (if hasOnReveal then 1 else 0))
        && (!fires ==> !hasRevealed && overlay[..] == erased && revealCalls == 0)
    {
      if hasRevealed {
        return;
      }
      isScratching := true;
      Scratch(coverage);
    }

    /** `handleMouseMove` / `handleTouchMove`: scratch only while the pointer
        is down. */
    method PointerMove(coverage: seq<Byte>)
      requires Valid() && |coverage| == TotalPixels()
      modifies this, overlay
      ensures Valid()
      ensures isScratching == old(isScratching)
      ensures !old(isScratching) || old(hasRevealed) ==> unchanged(this) && unchanged(overlay)
      ensures old(isScratching) && !old(hasRevealed) ==>
        var erased := ErasedPixels(old(overlay[..]), coverage);
        var fires := strokes % 5 == 0 && ReachesThreshold(TransparentCount(erased, TotalPixels()), TotalPixels());
        && strokes == old(strokes) + 1
        && (fires ==> hasRevealed && IsCleared(overlay[..]) && revealCalls == (if hasOnReveal then 1 else 0))
        && (!fires ==> !hasRevealed && overlay[..] == erased && revealCalls == 0)
    {
      if !isScratching || hasRevealed {
        return;
      }
      Scratch(coverage);
    }

    /** `handleMouseUp` / `handleTouchEnd` (and leaving the canvas). */
    method PointerUp()
      modifies this
      ensures !isScratching
      ensures strokes == old(strokes) && hasRevealed == old(hasRevealed) && revealCalls == old(revealCalls)
    {
      isScratching := false;
    }
  }
}
