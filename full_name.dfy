/**
 * The FULLNAME formula function (FullNamePlugin in src/Spreadsheet.jsx):
 * normalises a first and a last name and joins them with one space.
 */
module FullNamePlugin {
  import opened Wrappers
  import opened JsString

  /** `charAt(0).toUpperCase() + slice(1).toLowerCase()` on a non-empty text:
      the first character upper-cased in place, every later one lower-cased. */
  function Capitalize(t: string): (r: string)
    requires t != []
    ensures |r| == |t| && r[0] == ToUpper(t[0])
    ensures forall k :: 1 <= k < |r| ==> r[k] == ToLower(t[k])
  {
    var r := [ToUpper(t[0])] + LowerAll(t[1..]);
    assert forall k :: 1 <= k < |r| ==> r[k] == LowerAll(t[1..])[k - 1];
    r
  }

  /** `capitalizeName`: a missing or non-text part becomes ""; otherwise the
      trimmed text with its first character upper-cased and the rest
      lower-cased. An argument is `None` when it is absent, falsy or not a
      string. */
  function CapitalizeName(name: Option<string>): (r: string)
    ensures r == [] <==> name.None? || AllSpace(name.value)
    ensures NoEdgeSpace(r)
  {
    match name
    case None => ""
    case Some(s) =>
      TrimShape(s);
      var trimmed := Trim(s);
      if |trimmed| == 0 then "" else Capitalize(trimmed)
  }

  /** A normalised part is the trimmed text up to letter case: same length,
      same letters once lower-cased, its first character not a lower-case
      letter and no later character an upper-case one. */
  lemma CapitalizeShape(name: Option<string>)
    requires name.Some?
    ensures var r := CapitalizeName(name);
      && |r| == |Trim(name.value)|
      && LowerAll(r) == LowerAll(Trim(name.value))
      && (r != [] ==> !('a' <= r[0] <= 'z'))
      && (forall k :: 1 <= k < |r| ==> !('A' <= r[k] <= 'Z'))
  {
    var t := Trim(name.value);
    if t != [] {
      CapitalizeLowered(t);
    }
  }

  /** Lower-casing undoes the capital: the capitalised text and the text
      agree once both are lower-cased. */
  lemma CapitalizeLowered(t: string)
    requires t != []
    ensures LowerAll(Capitalize(t)) == LowerAll(t)
  {
    var r := Capitalize(t);
    forall k | 0 <= k < |t|
      ensures LowerAll(r)[k] == LowerAll(t)[k]
    {
      if k == 0 {
        CaseRoundTrip(t[0]);
      } else {
        assert r[k] == ToLower(t[k]);
      }
    }
  }

  /** Normalising an already normalised part changes nothing. */
  lemma CapitalizeIdempotent(name: Option<string>)
    ensures CapitalizeName(Some(CapitalizeName(name))) == CapitalizeName(name)
  {
    var r := CapitalizeName(name);
    if r != [] {
      CapitalizeShape(name);
      assert [] + r + [] == r;
      assert AllSpace([]);
      CapitalizeTo([], r, [], r);
    }
  }

  /** The FULLNAME evaluation body: both normalised parts joined by one space,
      then trimmed. The trim only removes the separator next to an empty
      part: the result is the two parts with one space between them when both
      are present, the present one alone otherwise. */
  function FullName(firstName: Option<string>, lastName: Option<string>): (r: string)
    ensures var f, l := CapitalizeName(firstName), CapitalizeName(lastName);
      r == if f == [] then l else if l == [] then f else f + " " + l
  {
    var f, l := CapitalizeName(firstName), CapitalizeName(lastName);
    TrimJoin(f, l);
    Trim(f + " " + l)
  }

  /** A part written as white space, a clean core and white space normalises
      to the core with its first character upper-cased and the rest lower-cased. */
  lemma CapitalizeCore(pre: string, core: string, post: string)
    requires AllSpace(pre) && AllSpace(post)
    requires core != [] && NoEdgeSpace(core)
    ensures CapitalizeName(Some(pre + core + post)) == Capitalize(core)
  {
    TrimUnique(pre, core, post);
  }

  /** A padded clean core normalises to any text that has the core's length,
      its first character upper-cased and every later one lower-cased. */
  lemma CapitalizeTo(pre: string, core: string, post: string, expected: string)
    requires AllSpace(pre) && AllSpace(post)
    requires core != [] && NoEdgeSpace(core)
    requires |expected| == |core| && expected[0] == ToUpper(core[0])
    requires forall k :: 1 <= k < |core| ==> expected[k] == ToLower(core[k])
    ensures CapitalizeName(Some(pre + core + post)) == expected
  {
    CapitalizeCore(pre, core, post);
    assert forall k :: 0 <= k < |core| ==> Capitalize(core)[k] == expected[k];
  }

  lemma CapitalizeJohn()
    ensures CapitalizeName(Some("jOHN")) == "John"
  {
    assert [] + "jOHN" + [] == "jOHN";
    CapitalizeTo([], "jOHN", [], "John");
  }

  lemma CapitalizeSmith()
    ensures CapitalizeName(Some("  SMITH ")) == "Smith"
  {
    assert "  " + "SMITH" + " " == "  SMITH ";
    CapitalizeTo("  ", "SMITH", " ", "Smith");
  }

  lemma CapitalizeLee()
    ensures CapitalizeName(Some("Lee")) == "Lee"
  {
    assert [] + "Lee" + [] == "Lee";
    CapitalizeTo([], "Lee", [], "Lee");
  }

  /** Worked example: both parts present, mixed case and padding, giving
      "John Smith". */
  lemma FullNameExampleBoth()
    ensures FullName(Some("jOHN"), Some("  SMITH ")) == "John" + " " + "Smith"
  {
    CapitalizeJohn();
    CapitalizeSmith();
  }

  /** Worked examples: an empty first part leaves no leading space, and two
      empty parts give the empty text. */
  lemma FullNameExamplesEmpty()
    ensures FullName(Some(""), Some("Lee")) == "Lee"
    ensures FullName(Some(""), Some("")) == ""
  {
    CapitalizeLee();
    assert AllSpace([]);
  }
}
