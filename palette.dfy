/** `updateUsedColors` of the first screen: the distinct canonical colours of
    the non-"transparent" cells, in the order a `Set` first meets them. */
module Palette {
  import opened Colors
  import opened Grids

  /** `if (pixel !== "transparent") colors.add(rgbaToHex(pixel))`. */
  function AddColor(acc: seq<string>, pixel: string): seq<string>
  {
    if pixel == Transparent then acc
    else var c := RgbaToHex(pixel); if c in acc then acc else acc + [c]
  }

  /** The set after visiting the cells of `row` in order. */
  function RowColors(acc: seq<string>, row: seq<string>): seq<string>
  {
    if row == [] then acc else AddColor(RowColors(acc, row[..|row| - 1]), row[|row| - 1])
  }

  /** The set after visiting every row of `g` in order (the specification of
      `CollectUsedColors`). */
  function UsedColors(g: Grid): (colors: seq<string>)
    ensures NoDuplicates(colors)
  {
    if g == [] then []
    else
      var before := UsedColors(g[..|g| - 1]);
      RowColorsNoDuplicates(before, g[|g| - 1]);
      RowColors(before, g[|g| - 1])
  }

  predicate NoDuplicates(s: seq<string>)
  {
    forall i, j :: 0 <= i < j < |s| ==> s[i] != s[j]
  }

  /** Some cell of `row` that is not "transparent" canonicalises to `c`. */
  predicate InRow(row: seq<string>, c: string)
  {
    exists j :: 0 <= j < |row| && row[j] != Transparent && RgbaToHex(row[j]) == c
  }

  /** Some cell of `g` that is not "transparent" canonicalises to `c`. */
  predicate InGrid(g: Grid, c: string)
  {
    exists i :: 0 <= i < |g| && InRow(g[i], c)
  }

  /** The nested `forEach` over the rows and their cells, adding to a set. */
  method CollectUsedColors(g: Grid) returns (colors: seq<string>)
    ensures colors == UsedColors(g)
  {
    colors := [];
    var i := 0;
    while i < |g|
      invariant 0 <= i <= |g|
      invariant colors == UsedColors(g[..i])
    {
      var row := g[i];
      var j := 0;
      ghost var before := colors;
      while j < |row|
        invariant 0 <= j <= |row|
        invariant colors == RowColors(before, row[..j])
      {
        var pixel := row[j];
        if pixel != Transparent {
          var c := RgbaToHex(pixel);
          if c !in colors {
            colors := colors + [c];
          }
        }
        assert row[..j + 1][..j] == row[..j];
        j := j + 1;
      }
      assert row[..j] == row;
      assert g[..i + 1][..i] == g[..i];
      i := i + 1;
    }
    assert g[..i] == g;
  }

  lemma {:induction false} RowColorsNoDuplicates(acc: seq<string>, row: seq<string>)
    requires NoDuplicates(acc)
    ensures NoDuplicates(RowColors(acc, row))
  {
    if row != [] {
      RowColorsNoDuplicates(acc, row[..|row| - 1]);
    }
  }

  lemma {:induction false} RowColorsMembers(acc: seq<string>, row: seq<string>, c: string)
    ensures c in RowColors(acc, row) <==> c in acc || InRow(row, c)
  {
    if row != [] {
      var init := row[..|row| - 1];
      RowColorsMembers(acc, init, c);
      if InRow(row, c) {
        var j :| 0 <= j < |row| && row[j] != Transparent && RgbaToHex(row[j]) == c;
        if j < |row| - 1 {
          assert init[j] == row[j];
        }
      }
      if InRow(init, c) {
        var j :| 0 <= j < |init| && init[j] != Transparent && RgbaToHex(init[j]) == c;
        assert row[j] == init[j];
      }
    }
  }

  /** A colour is listed exactly when some non-"transparent" cell canonicalises
      to it. */
  lemma {:induction false} UsedColorsMembers(g: Grid, c: string)
    ensures c in UsedColors(g) <==> InGrid(g, c)
  {
    if g != [] {
      var init := g[..|g| - 1];
      UsedColorsMembers(init, c);
      RowColorsMembers(UsedColors(init), g[|g| - 1], c);
      if InGrid(g, c) {
        var i :| 0 <= i < |g| && InRow(g[i], c);
        if i < |g| - 1 {
          assert init[i] == g[i];
        }
      }
      if InGrid(init, c) {
        var i :| 0 <= i < |init| && InRow(init[i], c);
        assert g[i] == init[i];
      }
    }
  }

  /** A blank grid uses no colour. */
  lemma BlankUsesNoColor(n: nat)
    ensures UsedColors(Blank(n)) == []
  {
    var g := Blank(n);
    if UsedColors(g) != [] {
      var c := UsedColors(g)[0];
      UsedColorsMembers(g, c);
      assert false;
    }
  }
}
