/** Image import: the aspect-fit layout of the first screen and the loops that
    turn the canvas samples into cells on both screens. Drawing the image onto
    the canvas is the browser's work; here it is the `Sampler` the loops read. */
module Raster {
  import opened Colors
  import opened Grids

  type Byte = x: int | 0 <= x < 256

  /** One `getImageData(x, y, 1, 1).data` quadruple. */
  datatype Rgba = Rgba(r: Byte, g: Byte, b: Byte, a: Byte)

  /** The canvas after `drawImage`: the colour at column `x`, row `y`. */
  type Sampler = (nat, nat) -> Rgba

  /** The text the browser prints for `a / 255` (for instance "1" for 255 and
      "0.5019607843137255" for 128). */
  type AlphaFormat = Byte -> string

  /** `rgba(${data[0]}, ${data[1]}, ${data[2]}, ${data[3] / 255})`: never an
      empty cell, and the colour pattern reads the three channels and the
      alpha text back out of it. */
  function CellText(p: Rgba, alphaText: AlphaFormat): (t: string)
    ensures t != "" && t != Transparent
    ensures IsDecimalText(alphaText(p.a)) ==>
              Search(t) == Some(RgbMatch(Decimal(p.r), Decimal(p.g), Decimal(p.b), Some(alphaText(p.a))))
  {
    var t := RgbaCall(Decimal(p.r), Decimal(p.g), Decimal(p.b), alphaText(p.a));
    assert t[0] == 'r' && Transparent[0] == 't';
    if IsDecimalText(alphaText(p.a)) then
      MatchOfRgbaCall(Decimal(p.r), Decimal(p.g), Decimal(p.b), alphaText(p.a));
      t
    else t
  }

  /** The cell text the first screen writes for a sample: the cell stays
      empty exactly when the sample is fully transparent. */
  function CenteredCell(p: Rgba, alphaText: AlphaFormat): (t: string)
    ensures t == Transparent <==> p.a == 0
    ensures p.a > 0 ==> t == CellText(p, alphaText)
  {
    if p.a > 0 then CellText(p, alphaText) else Transparent
  }

  /** The first screen's write-back: start from an all-"transparent" grid and
      write the cells whose sampled alpha is above 0, row array by row array. */
  method RasterizeCentered(n: nat, sample: Sampler, alphaText: AlphaFormat) returns (g: Grid)
    ensures IsGrid(g, n)
    ensures forall y, x :: 0 <= y < n && 0 <= x < n ==> g[y][x] == CenteredCell(sample(x, y), alphaText)
  {
    g := Blank(n);
    var y := 0;
    while y < n
      invariant 0 <= y <= n
      invariant IsGrid(g, n)
      invariant forall i, j :: 0 <= i < y && 0 <= j < n ==> g[i][j] == CenteredCell(sample(j, i), alphaText)
      invariant forall i :: y <= i < n ==> g[i] == Blank(n)[i]
    {
      var row := g[y];
      var x := 0;
      while x < n
        invariant 0 <= x <= n && |row| == n
        invariant forall j :: 0 <= j < x ==> row[j] == CenteredCell(sample(j, y), alphaText)
        invariant forall j :: x <= j < n ==> row[j] == Transparent
      {
        var data := sample(x, y);
        if data.a > 0 {
          row := row[x := CellText(data, alphaText)];
        }
        x := x + 1;
      }
      g := g[y := row];
      y := y + 1;
    }
  }

  /** The second screen's write-back: overwrite every cell of the current
      `n` by `n` grid with its sample, alpha 0 included. */
  method StretchInto(pixels: Grid, n: nat, sample: Sampler, alphaText: AlphaFormat) returns (g: Grid)
    requires IsGrid(pixels, n)
    ensures IsGrid(g, n)
    ensures forall y, x :: 0 <= y < n && 0 <= x < n ==> g[y][x] == CellText(sample(x, y), alphaText)
  {
    g := pixels;
    var y := 0;
    while y < n
      invariant 0 <= y <= n
      invariant IsGrid(g, n)
      invariant forall i, j :: 0 <= i < y && 0 <= j < n ==> g[i][j] == CellText(sample(j, i), alphaText)
    {
      var row := g[y];
      var x := 0;
      while x < n
        invariant 0 <= x <= n && |row| == n
        invariant forall j :: 0 <= j < x ==> row[j] == CellText(sample(j, y), alphaText)
      {
        var data := sample(x, y);
        row := row[x := CellText(data, alphaText)];
        x := x + 1;
      }
      g := g[y := row];
      y := y + 1;
    }
  }

  /** An imported cell canonicalises to `#` and the three channels as two hex
      digits each, then the alpha suffix of the browser's alpha text; when
      that text is "1" (alpha 255) there is no suffix. */
  lemma ImportedCellHex(p: Rgba, alphaText: AlphaFormat)
    requires IsDecimalText(alphaText(p.a))
    ensures RgbaToHex(CellText(p, alphaText))
            == "#" + ToHex(Decimal(p.r)) + ToHex(Decimal(p.g)) + ToHex(Decimal(p.b)) + AlphaSuffix(alphaText(p.a))
    ensures alphaText(p.a) == "1" ==> |RgbaToHex(CellText(p, alphaText))| == 7
  {
    RgbaToHexOfCall(Decimal(p.r), Decimal(p.g), Decimal(p.b), alphaText(p.a));
    var m := RgbMatch(Decimal(p.r), Decimal(p.g), Decimal(p.b), Some(alphaText(p.a)));
    DecimalRoundTrip(p.r);
    DecimalRoundTrip(p.g);
    DecimalRoundTrip(p.b);
    HexOfMatchLength(m);
  }

  // ---------------------------------------------------------------- layout

  /** `Math.min(currentSize / img.width, currentSize / img.height)`. */
  function FitScale(n: nat, w: nat, h: nat): (s: real)
    requires w > 0 && h > 0
    ensures s <= n as real / w as real && s <= n as real / h as real
    ensures s == n as real / w as real || s == n as real / h as real
  {
    var sx := n as real / w as real;
    var sy := n as real / h as real;
    if sx <= sy then sx else sy
  }

  /** `(currentSize - extent * scale) / 2`: the margins on both sides of the
      scaled extent are equal, and not negative when the extent fits. */
  function CenterShift(n: nat, extent: nat, s: real): (d: real)
    ensures 2.0 * d + extent as real * s == n as real
    ensures extent as real * s <= n as real ==> d >= 0.0
  {
    (n as real - extent as real * s) / 2.0
  }

  /** The scaled image fits inside the `n` by `n` canvas, touches two opposite
      edges along one axis, and is centred along both. */
  lemma FitIsCentered(n: nat, w: nat, h: nat)
    requires w > 0 && h > 0
    ensures var s := FitScale(n, w, h);
            && w as real * s <= n as real && h as real * s <= n as real
            && (w as real * s == n as real || h as real * s == n as real)
            && CenterShift(n, w, s) >= 0.0 && CenterShift(n, h, s) >= 0.0
            && 2.0 * CenterShift(n, w, s) + w as real * s == n as real
            && 2.0 * CenterShift(n, h, s) + h as real * s == n as real
  {
    var N, W, H := n as real, w as real, h as real;
    var s := FitScale(n, w, h);
    ScaledWithin(N, W, s);
    ScaledWithin(N, H, s);
  }

  /** A side scaled by at most `N / side` is at most `N`, and equal to `N`
      when the scale is exactly `N / side`. */
  lemma ScaledWithin(N: real, side: real, s: real)
    requires side > 0.0 && s <= N / side
    ensures side * s <= N
    ensures s == N / side ==> side * s == N
  {
    assert side * (N / side) == N;
    MulLeftMonotone(side, s, N / side);
  }

  lemma MulLeftMonotone(k: real, a: real, b: real)
    requires k >= 0.0 && a <= b
    ensures k * a <= k * b
  {
    assert k * b - k * a == k * (b - a);
  }
}
