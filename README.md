# Spreadsheet plugin and grid logic, modelled in Dafny

This project models the logic in `src/Spreadsheet.jsx` that does not depend
on the browser:

- **RATING** (`RatingPlugin`, `rating.dfy`) turns a rating and a maximum
  into a row of star glyphs. It may instead return "Invalid input" or
  "Invalid rating". The model has a specification function and a method
  that builds the row with the source's two appending loops.
- **FULLNAME** (`FullNamePlugin`, `full_name.dfy`) normalises a first name
  and a last name, then joins them with one space.
- **AGE** (`AgePlugin`, `age.dfy`) counts the whole years between a birth
  date and a reference date. The method mirrors the source's mutable
  `age`. The clock reading that the source uses as the default reference
  date is passed in as a parameter.
- **`cells`** (`CellRenderer`, `cell_renderer.dfy`) is the grid callback
  that attaches the `star-rating` class and a renderer to any cell whose
  text looks like a star rating.
- **`handleBold`** (`BoldToggle`, `bold_toggle.dfy`) toggles the `htBold`
  class name of every cell in every selected rectangle. It is a class
  `Grid` whose `classNames` map is updated in place, cell by cell, in nested
  loops.
- **`JsString`** (`js_string.dfy`) models the JavaScript string operations
  these rely on: `trim`, ASCII `toUpperCase`/`toLowerCase`, `includes`,
  `indexOf` and `replace` with a string pattern. It proves the facts about
  trimming and searching that the plugins need.

`Wrappers` (`wrappers.dfy`) holds the `Option` type. An absent argument or
a missing value is `None`.

RATING's row length follows its loops: the empty-glyph loop at
`src/Spreadsheet.jsx:44` keeps appending while the running count is below
`max`, so a row has `ceil(max)` glyphs. For example, RATING(3, 4.5) gives
five glyphs. `RatingPlugin.RatingLength` states this length. The `cells`
callback at lines 248-249 recognises ★, ☆ and ⭐ but not ⯨, which RATING
emits for a half star (see Findings).

## Model

| member | source | states |
|---|---|---|
| RatingPlugin.Ceil | src/Spreadsheet.jsx:44 | `Math.ceil`: the result is the least integer at or above the argument |
| RatingPlugin.Repeat | src/Spreadsheet.jsx:41 | an appending loop run n times leaves exactly n copies of the glyph |
| RatingPlugin.HasHalf | src/Spreadsheet.jsx:36 | the half glyph is earned exactly when twice the clamped rating rounds down to an odd number, i.e. the fraction is at least one half |
| RatingPlugin.Clamp | src/Spreadsheet.jsx:34 | the clamped rating lies in [0, max], is no larger than the rating, and is either the rating or the maximum |
| RatingPlugin.CountUpTo | src/Spreadsheet.jsx:44 | the empty-glyph loop runs zero times exactly when max ≤ its start; otherwise it stops at ceil(max) |
| RatingPlugin.Glyphs | src/Spreadsheet.jsx:34-45 | every character of a successful row is a full, half or empty star glyph |
| RatingPlugin.Rating | src/Spreadsheet.jsx:29-46 | "Invalid input" exactly when either argument is NaN; "Invalid rating" exactly when both are numbers and the rating is negative or the maximum is not positive; any other output is made of the three glyphs only |
| RatingPlugin.RatingWithDefaults | src/Spreadsheet.jsx:55-58 | with both arguments omitted the row is five empty stars; a rating of 3 with the default maximum gives ★★★☆☆ |
| RatingPlugin.RatingStars | src/Spreadsheet.jsx:29-46 | the two appending loops build exactly the row that Rating specifies, and the same error texts |
| RatingPlugin.RatingLength | src/Spreadsheet.jsx:43-44 | a successful row has exactly ceil(max) glyphs, which is max when max is whole |
| RatingPlugin.RatingGlyphAt | src/Spreadsheet.jsx:34-45 | position k holds a full glyph iff k < floor(clamped), the half glyph iff k = floor(clamped) and the fraction is at least 0.5, and an empty glyph otherwise |
| RatingPlugin.RatingClampsAbove | src/Spreadsheet.jsx:34 | a rating at or above the maximum gives the same row as the maximum; for a whole maximum that row is all full glyphs |
| RatingPlugin.RatingExamplesWhole | src/Spreadsheet.jsx:29-46 | (3,5) → ★★★☆☆ and (7,5) → ★★★★★ |
| RatingPlugin.RatingExamplesFractional | src/Spreadsheet.jsx:29-46 | (2.5,5) → ★★⯨☆☆ and (3,4.5) → ★★★☆☆ |
| RatingPlugin.RatingErrorExamples | src/Spreadsheet.jsx:32-33 | (-1,5) and (3,0) → "Invalid rating"; NaN → "Invalid input", even beside a negative rating |
| JsString.TrimStartSkips | src/Spreadsheet.jsx:75 | trimming the front stops at the first character that is not white space |
| JsString.TrimEndSkips | src/Spreadsheet.jsx:75 | trimming the back stops at the last character that is not white space |
| JsString.TrimStartParts | src/Spreadsheet.jsx:75 | (carries the meaning of JsString.TrimStart) what `trimStart` removes is a white-space prefix, and what remains does not start with white space |
| JsString.TrimEndParts | src/Spreadsheet.jsx:75 | (carries the meaning of JsString.TrimEnd) what `trimEnd` removes is a white-space suffix, and what remains does not end with white space |
| JsString.TrimParts | src/Spreadsheet.jsx:75 | (carries the meaning of JsString.Trim) every text is white space + its trim + white space, and the trim has no white space at either edge |
| JsString.TrimShape | src/Spreadsheet.jsx:75-76 | the trim has clean edges, is no longer than the text, and is empty exactly when the text is all white space |
| JsString.TrimUnique | src/Spreadsheet.jsx:81 | a clean core wrapped in white space trims to that core |
| JsString.TrimIdempotent | src/Spreadsheet.jsx:75 | trimming twice is trimming once |
| JsString.TrimClean | src/Spreadsheet.jsx:81 | a text with clean edges is its own trim |
| JsString.TrimJoin | src/Spreadsheet.jsx:81 | trimming `${f} ${l}` for clean f and l keeps the space only when both are non-empty |
| JsString.TrimAppendSpace | src/Spreadsheet.jsx:176-177 | a trailing space does not survive trimming |
| JsString.TrimDropLeading | src/Spreadsheet.jsx:176-177 | leading white space does not survive trimming |
| JsString.ToUpper | src/Spreadsheet.jsx:77 | a lower-case letter becomes an upper-case letter, every other character is unchanged, the result is never lower-case, and white space stays white space |
| JsString.ToLower | src/Spreadsheet.jsx:77 | an upper-case letter becomes a lower-case letter, every other character is unchanged, the result is never upper-case, and white space stays white space |
| JsString.CaseRoundTrip | src/Spreadsheet.jsx:77 | upper-casing a lower-case letter and lower-casing it back gives the letter again (and the mirror), and each letter maps to the one at the same alphabet position |
| JsString.LowerAll | src/Spreadsheet.jsx:77 | same length, each character lower-cased in place |
| JsString.IndexOf | src/Spreadsheet.jsx:175 | a found index is an occurrence with none before it; `None` (JavaScript's -1) means the pattern occurs nowhere |
| JsString.IndexOfFrom | src/Spreadsheet.jsx:175 | a found index is an occurrence with none before it; no index means no occurrence at all |
| JsString.ReplaceFirst | src/Spreadsheet.jsx:176 | without an occurrence the text is unchanged; with one, the length changes by the replacement's length minus the pattern's |
| JsString.ReplaceFirstAt | src/Spreadsheet.jsx:176 | with a first occurrence at i, the result is the text before i, the replacement, and the text after the occurrence |
| JsString.ContainsIff | src/Spreadsheet.jsx:175 | (carries the meaning of JsString.Contains) `includes` holds exactly when an occurrence exists |
| JsString.IndexOfIs | src/Spreadsheet.jsx:175 | the first occurrence is what `indexOf` returns |
| JsString.ContainsSuffix | src/Spreadsheet.jsx:175 | a text without the pattern has no suffix containing it |
| JsString.FirstOccurrenceAfterSpace | src/Spreadsheet.jsx:175-177 | after `${w} htBold` with no `htBold` in w, the first `htBold` is the appended one |
| FullNamePlugin.Capitalize | src/Spreadsheet.jsx:77 | same length, the first character upper-cased and every later one lower-cased |
| FullNamePlugin.CapitalizeLowered | src/Spreadsheet.jsx:77 | capitalising does not change the text once both are lower-cased |
| FullNamePlugin.CapitalizeName | src/Spreadsheet.jsx:73-78 | a normalised part is empty exactly when the part is missing or all white space, and never has white space at its edges |
| FullNamePlugin.CapitalizeShape | src/Spreadsheet.jsx:75-77 | a normalised part is the trimmed text up to letter case: same length, equal once lower-cased, first character not lower-case, later characters not upper-case |
| FullNamePlugin.CapitalizeIdempotent | src/Spreadsheet.jsx:73-78 | normalising a normalised part changes nothing |
| FullNamePlugin.FullName | src/Spreadsheet.jsx:70-82 | the result is "first last" with one space when both normalised parts are non-empty, the non-empty part alone otherwise, and "" when both are empty |
| FullNamePlugin.CapitalizeCore | src/Spreadsheet.jsx:73-78 | a clean core padded with white space normalises to its first character upper-cased and the rest lower-cased |
| FullNamePlugin.CapitalizeTo | src/Spreadsheet.jsx:73-78 | a padded clean core normalises to any text of its length whose first character is the core's upper-cased and the rest lower-cased |
| FullNamePlugin.CapitalizeJohn | src/Spreadsheet.jsx:73-78 | "jOHN" normalises to "John" |
| FullNamePlugin.CapitalizeSmith | src/Spreadsheet.jsx:73-78 | "  SMITH " normalises to "Smith" |
| FullNamePlugin.CapitalizeLee | src/Spreadsheet.jsx:73-78 | "Lee" is already normalised |
| FullNamePlugin.FullNameExampleBoth | src/Spreadsheet.jsx:70-82 | ("jOHN", "  SMITH ") → "John Smith" |
| FullNamePlugin.FullNameExamplesEmpty | src/Spreadsheet.jsx:70-82 | ("", "Lee") → "Lee" and ("", "") → "" |
| AgePlugin.CompletedYears | src/Spreadsheet.jsx:111-115 | the age is the last anniversary reached by the reference date (that one is reached, the next is not), and equals the year difference or one less |
| AgePlugin.Age | src/Spreadsheet.jsx:106-121 | "Invalid input" exactly when building a date throws; "Invalid date" exactly when nothing throws and a date is invalid; a number of years exactly when both dates are valid, and that number is CompletedYears; an omitted reference date is the injected current date |
| AgePlugin.CompletedYearsUnique | src/Spreadsheet.jsx:111-115 | the anniversary property determines the age uniquely |
| AgePlugin.AnniversaryMonotone | src/Spreadsheet.jsx:111-115 | reaching an anniversary means every earlier one was reached |
| AgePlugin.CompletedYearsMonotone | src/Spreadsheet.jsx:111-115 | the age never decreases as the reference date moves forward |
| AgePlugin.CompletedYearsOnAnniversary | src/Spreadsheet.jsx:111-115 | the age is 0 on the birth date and n on the n-th anniversary |
| AgePlugin.AgeExamples | src/Spreadsheet.jsx:111-116 | 2000-06-15 to 2020-06-14 is 19 years; to 2020-06-15 it is 20 |
| CellRenderer.Cells | src/Spreadsheet.jsx:243-259 | the meta is either empty or the star-rating class with its renderer, and it is the latter exactly when the grid exists and the value is text containing ★, ☆ or ⭐; the value is only read |
| CellRenderer.PlainValuesNotStyled | src/Spreadsheet.jsx:247-249 | numbers, booleans, empty cells and RATING's two error texts get the empty meta |
| CellRenderer.HalfGlyphsNotStyled | src/Spreadsheet.jsx:248-249 | a text made only of half glyphs gets the empty meta |
| CellRenderer.HalfStarRatingUnstyled | src/Spreadsheet.jsx:248-249 | RATING(0.5, 1) is a lone half glyph, and the classifier leaves it unstyled |
| CellRenderer.RatingStyledUnlessLoneHalf | src/Spreadsheet.jsx:248-249 | a successful RATING row is styled exactly when it is not the lone half glyph, and that row needs a maximum of at most 1 |
| CellRenderer.CellsWithHalfStar | src/Spreadsheet.jsx:248-249 | the corrected classifier also recognises the half glyph and styles everything the original styles |
| CellRenderer.EveryRatingStyled | src/Spreadsheet.jsx:248-249 | with the half glyph recognised, every successful RATING row is styled |
| BoldToggle.RectCells | src/Spreadsheet.jsx:167-172 | the cells visited are exactly those with the row between min(r1,r2) and max(r1,r2) and the column between min(c1,c2) and max(c1,c2) |
| BoldToggle.ToggleRect | src/Spreadsheet.jsx:166-180 | after one rectangle, each cell in it holds the toggled class name, every other cell keeps its own, and no other cell gains a class name |
| BoldToggle.ToggleAll | src/Spreadsheet.jsx:166-180 | every cell that had a class name, and every cell of every selected rectangle, has one afterwards |
| BoldToggle.ToggleAllStep | src/Spreadsheet.jsx:166 | toggling the rectangles up to i and then rectangle i is toggling the rectangles up to i+1 |
| BoldToggle.RowUpdatedAt | src/Spreadsheet.jsx:171-179 | updating a row cell by cell, left to right, gives each cell of the row the update of its original class name and leaves every other cell alone |
| BoldToggle.Grid.ToggleRow | src/Spreadsheet.jsx:171-179 | the column loop toggles exactly the cells of row r between startCol and endCol, each from its old class name, and no other cell changes or gains a class name |
| BoldToggle.Grid.ToggleRange | src/Spreadsheet.jsx:166-180 | the nested row and column loops leave the grid's class names exactly as ToggleRect specifies |
| BoldToggle.Grid.HandleBold | src/Spreadsheet.jsx:157-184 | with no grid or no selection nothing changes; otherwise the rectangles are toggled in order, as ToggleAll specifies |
| BoldToggle.ToggleEmpty | src/Spreadsheet.jsx:175-177 | "" toggles to "htBold" and "htBold" toggles back to "" |
| BoldToggle.ToggleTrimmed | src/Spreadsheet.jsx:175-177 | (with ToggleAddsBold and ToggleTwice, carries the meaning of BoldToggle.Toggle) the new class name is trimmed and at most the old one plus " htBold" long |
| BoldToggle.ToggleAddsBold | src/Spreadsheet.jsx:175-177 | a trimmed class name without htBold gains it: "htBold" if it was empty, "name htBold" otherwise |
| BoldToggle.RemoveAppendedBold | src/Spreadsheet.jsx:175-176 | removing the first htBold from "name htBold" removes the appended one |
| BoldToggle.ToggleTwice | src/Spreadsheet.jsx:175-177 | toggling a class name without htBold twice gives it back, trimmed |
| BoldToggle.ToggleTwiceBlank | src/Spreadsheet.jsx:175-177 | a blank class name toggles twice to "" |
| BoldToggle.ToggleTwiceWord | src/Spreadsheet.jsx:175-177 | a class name with text toggles twice to its trim |
| BoldToggle.ToggleRectSameCells | src/Spreadsheet.jsx:167-170 | two selections that cover the same cells toggle the same way |
| BoldToggle.ToggleRectCornerOrder | src/Spreadsheet.jsx:167-170 | swapping the corners of a selection does not change the result |
| BoldToggle.ToggleRectTwice | src/Spreadsheet.jsx:171-179 | pressing Bold twice on a rectangle restores every cell whose class name was trimmed and free of htBold |
| BoldToggle.ToggleAllOutside | src/Spreadsheet.jsx:166-180 | a cell outside every selected rectangle keeps its class name, and gains none |

## Left out

- Number coercion: `Number(...)` on the arguments is not modelled. An argument arrives as `NaN` or a real number. Infinity and IEEE-754 rounding are not represented. With an infinite maximum the source's empty-glyph loop never ends.
- Date parsing: `new Date(...)`, time zones and local-time getters are not modelled. A date arrives already parsed, already invalid, or as a thrown exception. The current date is the parameter `now`.
- Argument marshalling: HyperFormula plugin registration, `runFunction`, the argument-count checks and the translation tables are foreign library code. For FULLNAME, a missing, falsy or non-text argument is `None`.
- JsString.IsSpace: covers only the ASCII white-space characters. The non-ASCII members of JavaScript's white-space set, such as U+00A0 and U+FEFF, are not treated as white space by `Trim`.
- JsString.ToUpper: maps ASCII letters only. Full Unicode case mapping is not modelled. The same holds for JsString.ToLower and JsString.LowerAll.
- CellRenderer.Cells: the renderer's DOM work (`innerHTML`, inline style) is represented only by the `RatingCellRenderer` tag. Reading the value from the grid is represented by the `mounted` flag and the value parameter.
- BoldToggle.Grid.HandleBold: `alert`, `suspendRender`, `render` and `resumeRender` are screen I/O and are left out. A missing grid instance and an empty selection are the same `None` case. A class name that is not text (such as an array) is not modelled. Cell meta other than `className` is not modelled.

## Findings

| source | as written | input that shows it | evidently intended | confidence | as-written member | corrected member |
|---|---|---|---|---|---|---|
| src/Spreadsheet.jsx:248-249 | the `cells` callback styles text containing ★, ☆ or ⭐, but not the half glyph ⯨ that RATING emits | RATING(0.5, 1) returns "⯨", which keeps the default rendering | every RATING row gets the star-rating style: line 38 makes ⯨ one of RATING's three glyphs, and the comment at line 242 calls the renderer the one "for star ratings" | medium, not executed | CellRenderer.HalfStarRatingUnstyled | CellRenderer.EveryRatingStyled |
