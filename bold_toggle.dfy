/**
 * The Bold button (`handleBold` in src/Spreadsheet.jsx): for every selected
 * rectangle, toggle the `htBold` class name of each cell in it, updating the
 * grid's cell meta in place.
 */
module BoldToggle {
  import opened Wrappers
  import opened JsString

  const Bold: string := "htBold"

  /** A cell address: (row, column). */
  type Cell = (int, int)

  /** One selected range `[r1, c1, r2, c2]`; its corners may come in any order. */
  datatype Selection = Selection(r1: int, c1: int, r2: int, c2: int)

  // `Math.min` and `Math.max` on the integer cell coordinates.
  function Min(a: int, b: int): int { if a <= b then a else b }
  function Max(a: int, b: int): int { if a >= b then a else b }

  /** The cell lies in the rectangle spanned by the selection's corners. */
  predicate InRect(sel: Selection, cell: Cell) {
    && Min(sel.r1, sel.r2) <= cell.0 <= Max(sel.r1, sel.r2)
    && Min(sel.c1, sel.c2) <= cell.1 <= Max(sel.c1, sel.c2)
  }

  function RectCells(sel: Selection): (cells: set<Cell>)
    ensures forall cell :: cell in cells <==> InRect(sel, cell)
  {
    set r, c | Min(sel.r1, sel.r2) <= r <= Max(sel.r1, sel.r2) && Min(sel.c1, sel.c2) <= c <= Max(sel.c1, sel.c2) :: (r, c)
  }

  /** A cell's class name, `''` when the meta has none. */
  function ClassOf(classNames: map<Cell, string>, cell: Cell): string {
    if cell in classNames then classNames[cell] else ""
  }

  /** The new class name for one cell: remove the first `htBold` and trim if
      the name contains it, otherwise append ` htBold` and trim. */
  function Toggle(className: string): string {
    if Contains(className, Bold) then Trim(ReplaceFirst(className, Bold, ""))
    else Trim(className + " " + Bold)
  }

  /** The class names after toggling one selected rectangle. */
  function ToggleRect(classNames: map<Cell, string>, sel: Selection): (after: map<Cell, string>)
    ensures forall cell :: cell in after <==> cell in classNames || InRect(sel, cell)
    ensures forall cell :: InRect(sel, cell) ==> after[cell] == Toggle(ClassOf(classNames, cell))
    ensures forall cell :: cell in classNames && !InRect(sel, cell) ==> after[cell] == classNames[cell]
  {
    map cell | cell in classNames.Keys + RectCells(sel) ::
      if InRect(sel, cell) then Toggle(ClassOf(classNames, cell)) else classNames[cell]
  }

  /** The class names after toggling each selected rectangle in turn. */
  function ToggleAll(classNames: map<Cell, string>, sels: seq<Selection>): (after: map<Cell, string>)
    ensures forall cell :: cell in classNames ==> cell in after
    ensures forall i, cell :: 0 <= i < |sels| && InRect(sels[i], cell) ==> cell in after
  {
    if sels == [] then classNames
    else
      var earlier := sels[..|sels| - 1];
      var before := ToggleAll(classNames, earlier);
      assert forall i :: 0 <= i < |earlier| ==> earlier[i] == sels[i];
      ToggleRect(before, sels[|sels| - 1])
  }

  /** Row `r` updated cell by cell from column `startCol` up to, but not
      including, column `c`, left to right: each cell gets `update` of its
      current class name. */
  function RowUpdated(classNames: map<Cell, string>, r: int, startCol: int, c: int,
                      update: string -> string): map<Cell, string>
    decreases c - startCol
  {
    if c <= startCol then classNames
    else
      var m := RowUpdated(classNames, r, startCol, c - 1, update);
      m[(r, c - 1) := update(ClassOf(m, (r, c - 1)))]
  }

  /** Updating a row touches each of its cells once, from its original class
      name, and leaves every other cell alone. */
  lemma {:induction false} RowUpdatedAt(classNames: map<Cell, string>, r: int, startCol: int, c: int,
                                        update: string -> string)
    ensures var m := RowUpdated(classNames, r, startCol, c, update);
      && (forall cell :: cell in m <==> cell in classNames || (cell.0 == r && startCol <= cell.1 < c))
      && (forall cell :: cell in m ==>
            m[cell] == if cell.0 == r && startCol <= cell.1 < c
                       then update(ClassOf(classNames, cell)) else classNames[cell])
    decreases c - startCol
  {
    if c > startCol {
      RowUpdatedAt(classNames, r, startCol, c - 1, update);
      var m := RowUpdated(classNames, r, startCol, c - 1, update);
      assert ClassOf(m, (r, c - 1)) == ClassOf(classNames, (r, c - 1));
    }
  }

  /** The grid's per-cell class names, as `getCellMeta`/`setCellMeta` see them. */
  class Grid {
    var classNames: map<Cell, string>

    constructor ()
      ensures classNames == map[]
    {
      classNames := map[];
    }

    /** `getCellMeta(r, c).className || ''`. */
    function ClassName(cell: Cell): string
      reads this
    {
      ClassOf(classNames, cell)
    }

    /** The inner loop of the `forEach` body: toggle the cells of row `r`
        from column `startCol` to `endCol`, left to right. */
    method ToggleRow(r: int, startCol: int, endCol: int)
      modifies this
      ensures forall cell :: cell in classNames <==>
        cell in old(classNames) || (cell.0 == r && startCol <= cell.1 <= endCol)
      ensures forall cell :: cell in classNames ==>
        classNames[cell] == if cell.0 == r && startCol <= cell.1 <= endCol
                            then Toggle(ClassOf(old(classNames), cell)) else old(classNames)[cell]
    {
      ghost var before := classNames;
      var c := startCol;
      while c <= endCol
        invariant startCol <= c && (c <= endCol + 1 || c == startCol)
        invariant classNames == RowUpdated(before, r, startCol, c, Toggle)
      {
        var currentClass := ClassName((r, c));
        classNames := classNames[(r, c) := Toggle(currentClass)];
        c := c + 1;
      }
      RowUpdatedAt(before, r, startCol, c, Toggle);
    }

    /** The body of the `forEach` over the selected ranges: normalise the
        corners with min/max and toggle every cell, row by row. */
    method ToggleRange(sel: Selection)
      modifies this
      ensures classNames == ToggleRect(old(classNames), sel)
    {
      var startRow, endRow := Min(sel.r1, sel.r2), Max(sel.r1, sel.r2);
      var startCol, endCol := Min(sel.c1, sel.c2), Max(sel.c1, sel.c2);
      ghost var before := classNames;
      var r := startRow;
      while r <= endRow
        invariant startRow <= r <= endRow + 1
        invariant forall cell :: cell in classNames <==>
          cell in before || (startRow <= cell.0 < r && startCol <= cell.1 <= endCol)
        invariant forall cell :: cell in classNames ==>
          classNames[cell] == if startRow <= cell.0 < r && startCol <= cell.1 <= endCol
                              then Toggle(ClassOf(before, cell)) else before[cell]
      {
        ToggleRow(r, startCol, endCol);
        r := r + 1;
      }
      ghost var expected := ToggleRect(before, sel);
      assert forall cell :: cell in classNames <==> cell in expected;
      assert forall cell :: cell in classNames ==> classNames[cell] == expected[cell];
    }

    /** `handleBold`: `None` stands for both early returns (no grid instance
        yet, or nothing selected, where the source alerts), and nothing
        changes; otherwise each selected range is toggled in order. */
    method HandleBold(selected: Option<seq<Selection>>)
      modifies this
      ensures selected.None? ==> classNames == old(classNames)
      ensures selected.Some? ==> classNames == ToggleAll(old(classNames), selected.value)
    {
      if selected.None? {
        return;
      }
      var ranges := selected.value;
      var i := 0;
      while i < |ranges|
        invariant 0 <= i <= |ranges|
        invariant classNames == ToggleAll(old(classNames), ranges[..i])
      {
        ToggleAllStep(old(classNames), ranges, i);
        ToggleRange(ranges[i]);
        i := i + 1;
      }
      assert ranges[..|ranges|] == ranges;
    }
  }

  /** Toggling one more range extends the fold by one step. */
  lemma ToggleAllStep(classNames: map<Cell, string>, sels: seq<Selection>, i: nat)
    requires i < |sels|
    ensures ToggleAll(classNames, sels[..i + 1]) == ToggleRect(ToggleAll(classNames, sels[..i]), sels[i])
  {
    assert sels[..i + 1][..i] == sels[..i];
  }

  /** The empty class name and `htBold` alone toggle into each other. */
  lemma ToggleEmpty()
    ensures Toggle("") == Bold
    ensures Toggle(Bold) == ""
  {
    assert AllSpace(" ") && AllSpace([]);
    assert Contains(Bold, Bold) by {
      IndexOfIs(Bold, Bold, 0);
    }
    assert ReplaceFirst(Bold, Bold, "") == [];
    assert !Contains("", Bold) by {
      assert !OccursAt("", Bold, 0);
    }
    assert "" + " " + Bold == " " + Bold + [];
    TrimUnique(" ", Bold, []);
  }

  /** The new class name is always trimmed, and it is never longer than the
      old one with ` htBold` appended. */
  lemma ToggleTrimmed(className: string)
    ensures NoEdgeSpace(Toggle(className)) && Trim(Toggle(className)) == Toggle(className)
    ensures |Toggle(className)| <= |className| + 1 + |Bold|
  {
    if Contains(className, Bold) {
      TrimShape(ReplaceFirst(className, Bold, ""));
    } else {
      TrimShape(className + " " + Bold);
    }
    TrimClean(Toggle(className));
  }

  /** A trimmed class name without `htBold` gains it: `htBold` alone when the
      name is empty, appended after one space otherwise. */
  lemma ToggleAddsBold(className: string)
    requires !Contains(className, Bold) && Trim(className) == className
    ensures Toggle(className) == if className == [] then Bold else className + " " + Bold
    ensures Contains(Toggle(className), Bold)
  {
    if className == [] {
      ToggleEmpty();
      IndexOfIs(Bold, Bold, 0);
    } else {
      var x := className + " " + Bold;
      assert Trim(x) == x by {
        TrimShape(className);
        assert x[0] == className[0] && x[|x| - 1] == 'd';
        TrimClean(x);
      }
      FirstOccurrenceAfterSpace(className, Bold);
    }
  }

  /** Removing the first `htBold` from a name that gained it by appending
      removes exactly the appended one. */
  lemma RemoveAppendedBold(w: string)
    requires !Contains(w, Bold)
    ensures Contains(w + " " + Bold, Bold)
    ensures ReplaceFirst(w + " " + Bold, Bold, "") == w + " "
  {
    FirstOccurrenceAfterSpace(w, Bold);
    var y := w + " " + Bold;
    assert y[..|w| + 1] == w + " ";
    assert y[|w| + 1 + |Bold|..] == [];
  }

  /** Toggling a class name without `htBold` twice gives back the name,
      trimmed. */
  lemma ToggleTwice(className: string)
    requires !Contains(className, Bold)
    ensures Toggle(Toggle(className)) == Trim(className)
  {
    var p := TrimStartParts(className);
    var w := TrimStart(className);
    if w == [] {
      assert className == p;
      ToggleTwiceBlank(className);
    } else {
      ToggleTwiceWord(p, w);
    }
  }

  lemma ToggleTwiceBlank(className: string)
    requires AllSpace(className) && !Contains(className, Bold)
    ensures Toggle(Toggle(className)) == Trim(className)
  {
    assert Toggle(className) == Bold by {
      assert className + " " + Bold == (className + " ") + Bold;
      assert AllSpace(className + " ");
      TrimDropLeading(className + " ", Bold);
      TrimClean(Bold);
    }
    ToggleEmpty();
    TrimShape(className);
  }

  lemma ToggleTwiceWord(p: string, w: string)
    requires AllSpace(p) && w != [] && !IsSpace(w[0])
    requires !Contains(p + w, Bold)
    ensures Toggle(Toggle(p + w)) == Trim(p + w)
  {
    var y := w + " " + Bold;
    assert !Contains(w, Bold) by {
      ContainsSuffix(p, w, Bold);
    }
    assert Toggle(p + w) == y by {
      assert p + w + " " + Bold == p + y + [];
      assert y[0] == w[0];
      assert AllSpace([]);
      TrimUnique(p, y, []);
    }
    RemoveAppendedBold(w);
    TrimAppendSpace(w);
    TrimDropLeading(p, w);
  }

  /** Two selections covering the same cells toggle the same way. */
  lemma ToggleRectSameCells(classNames: map<Cell, string>, s1: Selection, s2: Selection)
    requires forall cell :: InRect(s1, cell) <==> InRect(s2, cell)
    ensures ToggleRect(classNames, s1) == ToggleRect(classNames, s2)
  {
    var a, b := ToggleRect(classNames, s1), ToggleRect(classNames, s2);
    assert forall cell :: cell in a <==> cell in b;
    assert forall cell :: cell in a ==> a[cell] == b[cell];
  }

  /** The corners of a selection may be given in either order: the source
      normalises them with min/max before looping. */
  lemma ToggleRectCornerOrder(classNames: map<Cell, string>, r1: int, c1: int, r2: int, c2: int)
    ensures ToggleRect(classNames, Selection(r1, c1, r2, c2)) == ToggleRect(classNames, Selection(r2, c2, r1, c1))
    ensures ToggleRect(classNames, Selection(r1, c1, r2, c2)) == ToggleRect(classNames, Selection(r1, c2, r2, c1))
  {
    ToggleRectSameCells(classNames, Selection(r1, c1, r2, c2), Selection(r2, c2, r1, c1));
    ToggleRectSameCells(classNames, Selection(r1, c1, r2, c2), Selection(r1, c2, r2, c1));
  }

  /** Pressing Bold twice on the same rectangle restores every cell whose class
      name was trimmed and free of `htBold` (a missing class reads as ""). */
  lemma ToggleRectTwice(classNames: map<Cell, string>, sel: Selection)
    requires forall cell :: cell in classNames && InRect(sel, cell) ==>
      !Contains(classNames[cell], Bold) && Trim(classNames[cell]) == classNames[cell]
    ensures forall cell :: ClassOf(ToggleRect(ToggleRect(classNames, sel), sel), cell) == ClassOf(classNames, cell)
  {
    forall cell
      ensures ClassOf(ToggleRect(ToggleRect(classNames, sel), sel), cell) == ClassOf(classNames, cell)
    {
      if InRect(sel, cell) {
        var c := ClassOf(classNames, cell);
        assert !Contains(c, Bold) && Trim(c) == c by {
          if cell !in classNames {
            assert AllSpace([]);
            assert !OccursAt([], Bold, 0);
          }
        }
        ToggleTwice(c);
      }
    }
  }

  /** A cell outside every selected rectangle keeps its class name. */
  lemma {:induction false} ToggleAllOutside(classNames: map<Cell, string>, sels: seq<Selection>, cell: Cell)
    requires forall i :: 0 <= i < |sels| ==> !InRect(sels[i], cell)
    ensures cell in ToggleAll(classNames, sels) <==> cell in classNames
    ensures ClassOf(ToggleAll(classNames, sels), cell) == ClassOf(classNames, cell)
  {
    if sels != [] {
      ToggleAllOutside(classNames, sels[..|sels| - 1], cell);
    }
  }
}
