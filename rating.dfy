/**
 * The RATING formula function (RatingPlugin in src/Spreadsheet.jsx): turns a
 * numeric rating and a maximum into a row of star glyphs, or into one of two
 * error texts that the sheet shows in place of the result.
 */
module RatingPlugin {
  import opened Wrappers

  const FullStar: char := '\U{2605}'   // BLACK STAR
  const HalfStar: char := '\U{2BE8}'   // LEFT HALF BLACK STAR
  const EmptyStar: char := '\U{2606}'  // WHITE STAR

  const InvalidInput: string := "Invalid input"
  const InvalidRating: string := "Invalid rating"

  /** Defaults declared in the RATING parameter schema (and, for the maximum,
      in the evaluation body's own signature). */
  const DefaultRating: real := 0.0
  const DefaultMaxStars: real := 5.0

  /** An argument after JavaScript's `Number(...)` coercion. */
  datatype Number = NaN | Num(value: real)

  predicate IsGlyph(c: char) {
    c == FullStar || c == HalfStar || c == EmptyStar
  }

  // `Math.min` and `Math.max` on the coerced (real) arguments.
  function Min(a: real, b: real): real { if a <= b then a else b }
  function Max(a: real, b: real): real { if a >= b then a else b }

  /** `Math.ceil` on reals. */
  function Ceil(x: real): (n: int)
    ensures n as real - 1.0 < x <= n as real
  {
    -((-x).Floor)
  }

  /** `Math.max(0, Math.min(rating, max))`. */
  function Clamp(rating: real, max: real): (c: real)
    requires rating >= 0.0 && max > 0.0
    ensures 0.0 <= c <= max && c <= rating
    ensures c == rating || c == max
  {
    Max(0.0, Min(rating, max))
  }

  /** `n` copies of `c`, built by appending as the source's loops do. */
  function Repeat(c: char, n: nat): (s: string)
    ensures |s| == n
    ensures forall k :: 0 <= k < n ==> s[k] == c
  {
    if n == 0 then [] else Repeat(c, n - 1) + [c]
  }

  /** Whether the clamped rating earns a half glyph: its fractional part is at
      least one half, which is to say twice the rating rounds down to an odd
      number. */
  predicate HasHalf(clamped: real): (half: bool)
    ensures half <==> (2.0 * clamped).Floor == 2 * clamped.Floor + 1
  {
    clamped - clamped.Floor as real >= 0.5
  }

  /** Number of iterations of `for (let i = from; i < max; i++)`. */
  function CountUpTo(from: int, max: real): (n: nat)
    ensures n == 0 <==> max <= from as real
    ensures n > 0 ==> from + n == Ceil(max)
  {
    if (from as real) < max then Ceil(max) - from else 0
  }

  /** The glyph row for already-validated numbers: full glyphs, then the half
      glyph if earned, then empty glyphs while the running count is below max. */
  function Glyphs(rating: real, max: real): (s: string)
    requires rating >= 0.0 && max > 0.0
    ensures forall k :: 0 <= k < |s| ==> IsGlyph(s[k])
  {
    var clamped := Clamp(rating, max);
    var full := clamped.Floor;
    var half := HasHalf(clamped);
    var total := full + (if half then 1 else 0);
    Repeat(FullStar, full) + (if half then [HalfStar] else []) + Repeat(EmptyStar, CountUpTo(total, max))
  }

  /** The RATING evaluation body: NaN is rejected first, then a negative
      rating or a non-positive maximum; anything else gives a glyph row. */
  function Rating(ratingValue: Number, maxStars: Number): (r: string)
    ensures r == InvalidInput <==> ratingValue.NaN? || maxStars.NaN?
    ensures r == InvalidRating <==>
      ratingValue.Num? && maxStars.Num? && (ratingValue.value < 0.0 || maxStars.value <= 0.0)
    ensures r != InvalidInput && r != InvalidRating ==> forall k :: 0 <= k < |r| ==> IsGlyph(r[k])
  {
    if ratingValue.NaN? || maxStars.NaN? then InvalidInput
    else if ratingValue.value < 0.0 || maxStars.value <= 0.0 then InvalidRating
    else
      var s := Glyphs(ratingValue.value, maxStars.value);
      assert !IsGlyph(InvalidInput[0]) && !IsGlyph(InvalidRating[0]);
      s
  }

  /** RATING as the formula engine calls it: an omitted argument takes the
      schema default (0 for the rating, 5 for the maximum). */
  function RatingWithDefaults(ratingValue: Option<Number>, maxStars: Option<Number>): (r: string)
    ensures ratingValue.None? && maxStars.None? ==> r == [EmptyStar, EmptyStar, EmptyStar, EmptyStar, EmptyStar]
    ensures ratingValue.Some? && maxStars.None? && ratingValue.value == Num(3.0) ==>
      r == [FullStar, FullStar, FullStar, EmptyStar, EmptyStar]
  {
    Rating(ratingValue.GetOr(Num(DefaultRating)), maxStars.GetOr(Num(DefaultMaxStars)))
  }

  /** The evaluation body as the source writes it: two appending loops around
      the optional half glyph. */
  method RatingStars(ratingValue: Number, maxStars: Number) returns (stars: string)
    ensures stars == Rating(ratingValue, maxStars)
  {
    if ratingValue.NaN? || maxStars.NaN? {
      return InvalidInput;
    }
    var rating, max := ratingValue.value, maxStars.value;
    if rating < 0.0 || max <= 0.0 {
      return InvalidRating;
    }
    var clamped := Max(0.0, Min(rating, max));
    var fullStars := clamped.Floor;
    var hasHalfStar := clamped - fullStars as real >= 0.5;
    stars := "";
    var i := 0;
    while i < fullStars
      invariant 0 <= i <= fullStars
      invariant stars == Repeat(FullStar, i)
    {
      stars := stars + [FullStar];
      i := i + 1;
    }
    if hasHalfStar {
      stars := stars + [HalfStar];
    }
    var prefix := stars;
    var totalStarsSoFar := fullStars + (if hasHalfStar then 1 else 0);
    i := totalStarsSoFar;
    while (i as real) < max
      invariant totalStarsSoFar <= i
      invariant i > totalStarsSoFar ==> i <= Ceil(max)
      invariant stars == prefix + Repeat(EmptyStar, i - totalStarsSoFar)
      decreases Ceil(max) - i
    {
      stars := stars + [EmptyStar];
      i := i + 1;
    }
  }

  /** A successful rating is exactly `ceil(max)` glyphs long, whatever the rating. */
  lemma RatingLength(rating: real, max: real)
    requires rating >= 0.0 && max > 0.0
    ensures |Rating(Num(rating), Num(max))| == Ceil(max)
    ensures max == max.Floor as real ==> |Rating(Num(rating), Num(max))| == max.Floor
  {
    var clamped := Clamp(rating, max);
    var full := clamped.Floor;
    var total := full + (if HasHalf(clamped) then 1 else 0);
    assert full <= Ceil(max);
    if HasHalf(clamped) {
      assert (full as real) < clamped <= max;
    }
    assert total <= Ceil(max);
  }

  /** Where each glyph of a successful rating sits: the first `floor(clamped)`
      positions are full, the next is the half glyph exactly when the
      fractional part is at least one half, and every other position is empty. */
  lemma RatingGlyphAt(rating: real, max: real, k: int)
    requires rating >= 0.0 && max > 0.0
    requires 0 <= k < Ceil(max)
    ensures var r := Rating(Num(rating), Num(max)); var c := Clamp(rating, max);
      && k < |r|
      && (r[k] == FullStar <==> k < c.Floor)
      && (r[k] == HalfStar <==> k == c.Floor && HasHalf(c))
      && (r[k] == EmptyStar <==> k > c.Floor || (k == c.Floor && !HasHalf(c)))
  {
    RatingLength(rating, max);
  }

  /** A rating above the maximum is clamped: it gives the same row as the
      maximum itself, and for a whole maximum that row is all full glyphs. */
  lemma RatingClampsAbove(rating: real, max: real)
    requires max > 0.0 && rating >= max
    ensures Rating(Num(rating), Num(max)) == Rating(Num(max), Num(max))
    ensures max == max.Floor as real ==> Rating(Num(rating), Num(max)) == Repeat(FullStar, max.Floor)
  {
  }

  /** Worked examples with a whole rating: (3, 5) and a rating above the
      maximum, (7, 5). */
  lemma RatingExamplesWhole()
    ensures Rating(Num(3.0), Num(5.0)) == [FullStar, FullStar, FullStar, EmptyStar, EmptyStar]
    ensures Rating(Num(7.0), Num(5.0)) == [FullStar, FullStar, FullStar, FullStar, FullStar]
  {
    assert Rating(Num(3.0), Num(5.0)) == Repeat(FullStar, 3) + Repeat(EmptyStar, 2);
    assert Rating(Num(7.0), Num(5.0)) == Repeat(FullStar, 5) + Repeat(EmptyStar, 0);
  }

  /** Worked examples with fractions: a half glyph for (2.5, 5), and for the
      fractional maximum of (3, 4.5) an empty glyph in the fifth slot. */
  lemma RatingExamplesFractional()
    ensures Rating(Num(2.5), Num(5.0)) == [FullStar, FullStar, HalfStar, EmptyStar, EmptyStar]
    ensures Rating(Num(3.0), Num(4.5)) == [FullStar, FullStar, FullStar, EmptyStar, EmptyStar]
  {
    assert Rating(Num(2.5), Num(5.0)) == Repeat(FullStar, 2) + [HalfStar] + Repeat(EmptyStar, 2);
    assert Rating(Num(3.0), Num(4.5)) == Repeat(FullStar, 3) + Repeat(EmptyStar, 2);
  }

  /** Worked examples of the error texts: NaN wins over a negative rating. */
  lemma RatingErrorExamples()
    ensures Rating(Num(-1.0), Num(5.0)) == InvalidRating
    ensures Rating(Num(3.0), Num(0.0)) == InvalidRating
    ensures Rating(NaN, Num(5.0)) == InvalidInput
    ensures Rating(Num(-1.0), NaN) == InvalidInput
  {
  }
}
