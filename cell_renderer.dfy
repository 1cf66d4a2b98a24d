/**
 * The grid's `cells` callback (src/Spreadsheet.jsx): a per-cell classifier that
 * looks at the computed value and, when it looks like a star rating, attaches
 * the `star-rating` class and a custom renderer. The cell's value itself is
 * only read, never written.
 */
module CellRenderer {
  import opened Wrappers
  import RatingPlugin

  /** The emoji star, also recognised by the classifier. */
  const EmojiStar: char := '\U{2B50}'

  const StarRatingClass: string := "star-rating"

  /** A cell value as the grid reports it. */
  datatype CellData = Text(text: string) | Number(number: real) | Boolean(flag: bool) | Empty

  /** The custom paint routine that centres the glyphs in a flex container. */
  datatype Renderer = RatingCellRenderer

  /** The meta object the callback returns. */
  datatype CellMeta = CellMeta(className: Option<string>, renderer: Option<Renderer>)

  const NoOverride: CellMeta := CellMeta(None, None)
  const StarOverride: CellMeta := CellMeta(Some(StarRatingClass), Some(RatingCellRenderer))

  /** The glyph test as written: a full star, an empty star or the emoji star. */
  predicate LooksLikeRating(s: string) {
    RatingPlugin.FullStar in s || RatingPlugin.EmptyStar in s || EmojiStar in s
  }

  /** The `cells` callback as written; `mounted` is false while the grid
      instance does not exist yet. */
  function Cells(mounted: bool, value: CellData): (m: CellMeta)
    ensures m == NoOverride || m == StarOverride
    ensures m == StarOverride <==> mounted && value.Text? && LooksLikeRating(value.text)
  {
    if mounted && value.Text? && LooksLikeRating(value.text) then StarOverride else NoOverride
  }

  /** Numbers, booleans, empty cells and text without a recognised glyph keep
      the default rendering; so do RATING's error texts. */
  lemma PlainValuesNotStyled(x: real, b: bool, mounted: bool)
    ensures Cells(mounted, Number(x)) == NoOverride
    ensures Cells(mounted, Boolean(b)) == NoOverride
    ensures Cells(mounted, Empty) == NoOverride
    ensures Cells(mounted, Text(RatingPlugin.InvalidInput)) == NoOverride
    ensures Cells(mounted, Text(RatingPlugin.InvalidRating)) == NoOverride
  {
    assert forall k :: 0 <= k < |RatingPlugin.InvalidInput| ==> RatingPlugin.InvalidInput[k] < '\U{80}';
    assert forall k :: 0 <= k < |RatingPlugin.InvalidRating| ==> RatingPlugin.InvalidRating[k] < '\U{80}';
  }

  /** A text made only of half glyphs is not recognised. */
  lemma HalfGlyphsNotStyled(n: nat)
    ensures Cells(true, Text(RatingPlugin.Repeat(RatingPlugin.HalfStar, n))) == NoOverride
  {
  }

  /** The RATING output for a rating of one half out of one is a lone half
      glyph, which the classifier as written leaves unstyled. */
  lemma HalfStarRatingUnstyled()
    ensures RatingPlugin.Rating(RatingPlugin.Num(0.5), RatingPlugin.Num(1.0)) == [RatingPlugin.HalfStar]
    ensures Cells(true, Text(RatingPlugin.Rating(RatingPlugin.Num(0.5), RatingPlugin.Num(1.0)))) == NoOverride
  {
    assert RatingPlugin.Rating(RatingPlugin.Num(0.5), RatingPlugin.Num(1.0))
        == RatingPlugin.Repeat(RatingPlugin.FullStar, 0) + [RatingPlugin.HalfStar] + RatingPlugin.Repeat(RatingPlugin.EmptyStar, 0);
  }

  /** The classifier as written styles every successful RATING output except
      the lone half glyph, which appears only when the maximum is at most one. */
  lemma RatingStyledUnlessLoneHalf(rating: real, max: real)
    requires rating >= 0.0 && max > 0.0
    ensures var r := RatingPlugin.Rating(RatingPlugin.Num(rating), RatingPlugin.Num(max));
      Cells(true, Text(r)) == StarOverride <==> r != [RatingPlugin.HalfStar]
    ensures RatingPlugin.Rating(RatingPlugin.Num(rating), RatingPlugin.Num(max)) == [RatingPlugin.HalfStar] ==> max <= 1.0
  {
    var r := RatingPlugin.Rating(RatingPlugin.Num(rating), RatingPlugin.Num(max));
    RatingPlugin.RatingLength(rating, max);
    RatingPlugin.RatingGlyphAt(rating, max, 0);
    if r == [RatingPlugin.HalfStar] {
      assert forall c :: c in r ==> c == RatingPlugin.HalfStar;
    } else if r[0] != RatingPlugin.HalfStar {
      assert r[0] in r;
    } else {
      RatingPlugin.RatingGlyphAt(rating, max, 1);
      assert r[1] in r;
    }
  }

  /** The glyph test with the half glyph added, as the rating glyphs suggest. */
  predicate ShowsRatingGlyph(s: string) {
    LooksLikeRating(s) || RatingPlugin.HalfStar in s
  }

  /** The classifier with the half glyph recognised too. */
  function CellsWithHalfStar(mounted: bool, value: CellData): (m: CellMeta)
    ensures m == NoOverride || m == StarOverride
    ensures m == StarOverride <==> mounted && value.Text? && ShowsRatingGlyph(value.text)
    ensures Cells(mounted, value) == StarOverride ==> m == StarOverride
  {
    if mounted && value.Text? && ShowsRatingGlyph(value.text) then StarOverride else NoOverride
  }

  /** With the half glyph recognised, every successful RATING output is styled. */
  lemma EveryRatingStyled(rating: real, max: real)
    requires rating >= 0.0 && max > 0.0
    ensures CellsWithHalfStar(true, Text(RatingPlugin.Rating(RatingPlugin.Num(rating), RatingPlugin.Num(max)))) == StarOverride
  {
    var r := RatingPlugin.Rating(RatingPlugin.Num(rating), RatingPlugin.Num(max));
    RatingPlugin.RatingLength(rating, max);
    assert RatingPlugin.IsGlyph(r[0]);
    assert r[0] in r;
  }
}
