/**
 * Properties of the energy function: how the wrap-around neighbours behave,
 * when energy vanishes, and how the energy of a pixel follows the picture
 * when the picture is transposed, mirrored or rotated around the torus.
 */
module EnergyProperties {
  import opened Pictures
  import opened EnergyCalculator

  /* ---------------------------------------------------------------------- */
  /* Wrap-around neighbours                                                  */
  /* ---------------------------------------------------------------------- */

  /** Stepping forward then back, or back then forward, returns to the start. */
  lemma WrapRoundTrip(i: nat, n: nat)
    requires i < n
    ensures WrapPrev(WrapNext(i, n), n) == i
    ensures WrapNext(WrapPrev(i, n), n) == i
  {
  }

  /**
   * The two opposite neighbours of an index are the same index exactly when
   * the axis has at most two positions.
   */
  lemma NeighboursCoincide(i: nat, n: nat)
    requires i < n
    ensures WrapPrev(i, n) == WrapNext(i, n) <==> n <= 2
  {
  }

  /** Reflecting an axis (i becomes n - 1 - i) swaps the two neighbours. */
  lemma WrapReflect(i: nat, n: nat)
    requires i < n
    ensures WrapPrev(n - 1 - i, n) == n - 1 - WrapNext(i, n)
    ensures WrapNext(n - 1 - i, n) == n - 1 - WrapPrev(i, n)
  {
  }

  /** A product of a positive factor and a positive modulus is at least the modulus. */
  lemma MulAtLeast(a: int, n: int)
    requires a >= 1 && n > 0
    ensures a * n >= n
  {
  }

  /** Division with remainder is unique: if y == q * n + r with 0 <= r < n, then r is y % n. */
  lemma ModUnique(y: int, n: int, q: int, r: int)
    requires n > 0 && 0 <= r < n && y == q * n + r
    ensures y % n == r
  {
    var q', r' := y / n, y % n;
    var d := q - q';
    assert d * n == r' - r by { assert q * n - q' * n == (q - q') * n; }
    if d > 0 {
      MulAtLeast(d, n);
    } else if d < 0 {
      MulAtLeast(-d, n);
    }
  }

  /** Taking the remainder before adding one does not change the remainder after. */
  lemma ModSucc(x: nat, n: nat)
    requires n > 0
    ensures ((x % n) + 1) % n == (x + 1) % n
  {
    var q, r := x / n, x % n;
    if r + 1 < n {
      ModUnique(x + 1, n, q, r + 1);
      ModUnique(r + 1, n, 0, r + 1);
    } else {
      assert x + 1 == (q + 1) * n;
      ModUnique(x + 1, n, q + 1, 0);
      ModUnique(r + 1, n, 1, 0);
    }
  }

  /**
   * The index reached from `i` by stepping `k` times to the right neighbour:
   * it is `i + k` taken modulo the axis length.
   */
  function Advance(i: nat, n: nat, k: nat): (a: nat)
    requires i < n
    ensures a < n
    ensures a == (i + k) % n
    decreases k
  {
    if k == 0 then
      ModUnique(i, n, 0, i);
      i
    else
      ModSucc(i + k - 1, n);
      WrapNext(Advance(i, n, k - 1), n)
  }

  /** Stepping `k` times commutes with taking either neighbour. */
  lemma {:induction false} AdvanceCommutes(i: nat, n: nat, k: nat)
    requires i < n
    ensures Advance(WrapNext(i, n), n, k) == WrapNext(Advance(i, n, k), n)
    ensures Advance(WrapPrev(i, n), n, k) == WrapPrev(Advance(i, n, k), n)
  {
    if k > 0 {
      AdvanceCommutes(i, n, k - 1);
    }
  }

  /** The left neighbour is i - 1 taken modulo the axis length. */
  lemma WrapPrevIsModular(i: nat, n: nat)
    requires i < n
    ensures WrapPrev(i, n) == (i + n - 1) % n
  {
    if i == 0 {
      ModUnique(n - 1, n, 0, n - 1);
    } else {
      ModUnique(i + n - 1, n, 1, i - 1);
    }
  }

  /* ---------------------------------------------------------------------- */
  /* The energy formula written out                                          */
  /* ---------------------------------------------------------------------- */

  /**
   * The energy of pixel (c, r) as the closed formula: neighbours chosen by
   * modular arithmetic, then the six squared channel differences summed.
   */
  function ReferenceEnergy(pic: Picture, c: nat, r: nat): int
    requires pic.Valid()
    requires c < pic.width && r < pic.height
  {
    var w, h := pic.width, pic.height;
    var left, right := pic.Get((c + w - 1) % w, r), pic.Get((c + 1) % w, r);
    var above, below := pic.Get(c, (r + h - 1) % h), pic.Get(c, (r + 1) % h);
    (left.red - right.red) * (left.red - right.red)
    + (left.green - right.green) * (left.green - right.green)
    + (left.blue - right.blue) * (left.blue - right.blue)
    + (above.red - below.red) * (above.red - below.red)
    + (above.green - below.green) * (above.green - below.green)
    + (above.blue - below.blue) * (above.blue - below.blue)
  }

  /** The branch-by-branch computation agrees with the closed formula everywhere. */
  lemma MatchesReferenceEnergy(pic: Picture, c: nat, r: nat)
    requires pic.Valid()
    requires c < pic.width && r < pic.height
    ensures CalculatePixelEnergy(pic, c, r) == ReferenceEnergy(pic, c, r)
  {
    WrapPrevIsModular(c, pic.width);
    WrapPrevIsModular(r, pic.height);
  }

  /* ---------------------------------------------------------------------- */
  /* Pixels of zero energy                                                   */
  /* ---------------------------------------------------------------------- */

  /** Squared distance does not depend on the order of the two colours. */
  lemma SquaredDistanceSymmetric(a: Color, b: Color)
    ensures SquaredDistance(a, b) == SquaredDistance(b, a)
  {
  }

  /** In a picture at most two columns wide the horizontal term is always 0. */
  lemma NarrowPictureHasNoHorizontalTerm(pic: Picture, col: nat, row: nat)
    requires pic.Valid()
    requires col < pic.width && row < pic.height
    requires pic.width <= 2
    ensures DeltaX(pic, col, row) == 0
  {
    NeighboursCoincide(col, pic.width);
  }

  /** In a picture at most two rows high the vertical term is always 0. */
  lemma ShortPictureHasNoVerticalTerm(pic: Picture, col: nat, row: nat)
    requires pic.Valid()
    requires col < pic.width && row < pic.height
    requires pic.height <= 2
    ensures DeltaY(pic, col, row) == 0
  {
    NeighboursCoincide(row, pic.height);
  }

  /**
   * In a picture of at most 2 x 2 pixels (1 x 1 included) every pixel's
   * opposite neighbours coincide, so every energy is 0.
   */
  lemma TinyPictureHasZeroEnergy(pic: Picture, col: nat, row: nat)
    requires pic.Valid()
    requires col < pic.width && row < pic.height
    requires pic.width <= 2 && pic.height <= 2
    ensures pic.width == 1 ==> WrapPrev(col, 1) == col == WrapNext(col, 1)
    ensures pic.height == 1 ==> WrapPrev(row, 1) == row == WrapNext(row, 1)
    ensures CalculatePixelEnergy(pic, col, row) == 0
  {
    NarrowPictureHasNoHorizontalTerm(pic, col, row);
    ShortPictureHasNoVerticalTerm(pic, col, row);
  }

  /** Every pixel of the picture has colour `k`. */
  predicate Uniform(pic: Picture, k: Color)
    requires pic.Valid()
  {
    forall col, row :: 0 <= col < pic.width && 0 <= row < pic.height ==> pic.Get(col, row) == k
  }

  /** In a single-colour picture every pixel has energy 0. */
  lemma UniformPictureHasZeroEnergy(pic: Picture, k: Color)
    requires pic.Valid() && Uniform(pic, k)
    ensures forall col, row :: 0 <= col < pic.width && 0 <= row < pic.height ==>
              CalculatePixelEnergy(pic, col, row) == 0
  {
  }

  /* ---------------------------------------------------------------------- */
  /* Symmetries of the torus                                                 */
  /* ---------------------------------------------------------------------- */

  /** The picture with columns and rows exchanged. */
  function Transpose(pic: Picture): (t: Picture)
    requires pic.Valid()
    ensures t.Valid()
    ensures t.width == pic.height && t.height == pic.width
    ensures forall col, row :: 0 <= col < pic.width && 0 <= row < pic.height ==>
              t.Get(row, col) == pic.Get(col, row)
  {
    Picture(pic.height, pic.width,
      seq(pic.height, row requires 0 <= row < pic.height =>
        seq(pic.width, col requires 0 <= col < pic.width => pic.columns[col][row])))
  }

  /** The picture reflected left to right. */
  function Mirror(pic: Picture): (m: Picture)
    requires pic.Valid()
    ensures m.Valid()
    ensures m.width == pic.width && m.height == pic.height
    ensures forall col, row :: 0 <= col < pic.width && 0 <= row < pic.height ==>
              m.Get(pic.width - 1 - col, row) == pic.Get(col, row)
  {
    Picture(pic.width, pic.height,
      seq(pic.width, col requires 0 <= col < pic.width => pic.columns[pic.width - 1 - col]))
  }

  /**
   * The picture rotated `k` columns to the left around the torus: column
   * `col` of the result is column `col + k` (modulo the width) of `pic`.
   */
  function Translate(pic: Picture, k: nat): (t: Picture)
    requires pic.Valid()
    ensures t.Valid()
    ensures t.width == pic.width && t.height == pic.height
    ensures forall col, row :: 0 <= col < pic.width && 0 <= row < pic.height ==>
              t.Get(col, row) == pic.Get(Advance(col, pic.width, k), row)
  {
    Picture(pic.width, pic.height,
      seq(pic.width, col requires 0 <= col < pic.width => pic.columns[Advance(col, pic.width, k)]))
  }

  /** Transposing exchanges the horizontal and the vertical term; energy is kept. */
  lemma TransposeKeepsEnergy(pic: Picture, col: nat, row: nat)
    requires pic.Valid()
    requires col < pic.width && row < pic.height
    ensures DeltaX(Transpose(pic), row, col) == DeltaY(pic, col, row)
    ensures DeltaY(Transpose(pic), row, col) == DeltaX(pic, col, row)
    ensures CalculatePixelEnergy(Transpose(pic), row, col) == CalculatePixelEnergy(pic, col, row)
  {
  }

  /** Mirroring moves each pixel's energy with the pixel. */
  lemma MirrorKeepsEnergy(pic: Picture, col: nat, row: nat)
    requires pic.Valid()
    requires col < pic.width && row < pic.height
    ensures CalculatePixelEnergy(Mirror(pic), pic.width - 1 - col, row) == CalculatePixelEnergy(pic, col, row)
  {
    var w, m, mirrored := pic.width, Mirror(pic), pic.width - 1 - col;
    WrapReflect(col, w);
    // The left neighbour of the mirrored pixel is the mirror of the right one, and vice versa.
    var left, right := pic.Get(WrapPrev(col, w), row), pic.Get(WrapNext(col, w), row);
    assert m.Get(WrapPrev(mirrored, w), row) == right;
    assert m.Get(WrapNext(mirrored, w), row) == left;
    SquaredDistanceSymmetric(left, right);
    assert DeltaX(m, mirrored, row) == DeltaX(pic, col, row);
    // Vertically the mirrored pixel sees the same column as the original.
    assert m.Get(mirrored, WrapPrev(row, pic.height)) == pic.Get(col, WrapPrev(row, pic.height));
    assert m.Get(mirrored, WrapNext(row, pic.height)) == pic.Get(col, WrapNext(row, pic.height));
  }

  /**
   * Rotating the picture around the torus by any number of columns rotates
   * its energy map with it: no column is special, the wrapped edges included.
   */
  lemma TranslateKeepsEnergy(pic: Picture, k: nat, col: nat, row: nat)
    requires pic.Valid()
    requires col < pic.width && row < pic.height
    ensures CalculatePixelEnergy(Translate(pic, k), col, row) ==
            CalculatePixelEnergy(pic, (col + k) % pic.width, row)
  {
    var t, w := Translate(pic, k), pic.width;
    AdvanceCommutes(col, w, k);
    assert t.Get(WrapPrev(col, w), row) == pic.Get(WrapPrev(Advance(col, w, k), w), row);
    assert t.Get(WrapNext(col, w), row) == pic.Get(WrapNext(Advance(col, w, k), w), row);
  }

  /* ---------------------------------------------------------------------- */
  /* A worked example                                                        */
  /* ---------------------------------------------------------------------- */

  const Black := Color(0, 0, 0)
  const White := Color(255, 255, 255)

  /** A 3 x 3 black picture with one white pixel in the centre. */
  function BrightCentre(): (pic: Picture)
    ensures pic.Valid() && pic.width == 3 && pic.height == 3
  {
    Picture(3, 3, [[Black, Black, Black], [Black, White, Black], [Black, Black, Black]])
  }

  /** The colours of the worked example, pixel by pixel. */
  lemma BrightCentrePixels()
    ensures BrightCentre().Get(1, 1) == White
    ensures BrightCentre().Get(0, 0) == BrightCentre().Get(1, 0) == BrightCentre().Get(2, 0) == Black
    ensures BrightCentre().Get(0, 1) == BrightCentre().Get(2, 1) == Black
    ensures BrightCentre().Get(0, 2) == BrightCentre().Get(1, 2) == BrightCentre().Get(2, 2) == Black
  {
  }

  /** On an axis of length 3 every index has two distinct neighbours. */
  lemma WrapOnThree()
    ensures WrapPrev(0, 3) == 2 && WrapNext(0, 3) == 1
    ensures WrapPrev(1, 3) == 0 && WrapNext(1, 3) == 2
    ensures WrapPrev(2, 3) == 1 && WrapNext(2, 3) == 0
  {
  }

  /** Black and white are as far apart as two colours can be, in either order. */
  lemma BlackWhiteDistance()
    ensures SquaredDistance(Black, White) == 3 * MaxChannelSquare
    ensures SquaredDistance(White, Black) == 3 * MaxChannelSquare
  {
    assert Square(0 - 255) == MaxChannelSquare;
    assert Square(255 - 0) == MaxChannelSquare;
  }

  /**
   * In the worked example the four pixels next to the white centre (exactly
   * one coordinate equal to 1) see black on one side and white on the other
   * along one axis, so their energy is positive, namely the full distance
   * 3 * 255 * 255 from black to white; the corners and the centre itself have
   * equal opposite neighbours on both axes and energy 0.
   */
  lemma BrightCentreEnergy(col: nat, row: nat)
    requires col < 3 && row < 3
    ensures (col == 1) != (row == 1) ==> CalculatePixelEnergy(BrightCentre(), col, row) > 0
    ensures (col == 1) != (row == 1) ==> CalculatePixelEnergy(BrightCentre(), col, row) == 3 * MaxChannelSquare
    ensures (col == 1) == (row == 1) ==> CalculatePixelEnergy(BrightCentre(), col, row) == 0
  {
    BrightCentrePixels();
    WrapOnThree();
    if (col == 1) != (row == 1) {
      BlackWhiteDistance();
      if col == 1 {
        assert DeltaX(BrightCentre(), col, row) == 0;
        assert DeltaY(BrightCentre(), col, row) == 3 * MaxChannelSquare;
      } else {
        assert DeltaX(BrightCentre(), col, row) == 3 * MaxChannelSquare;
        assert DeltaY(BrightCentre(), col, row) == 0;
      }
    }
  }

  /* ---------------------------------------------------------------------- */
  /* The built map                                                           */
  /* ---------------------------------------------------------------------- */

  /** Two calculators built from the same picture hold identical grids. */
  lemma BuiltMapsAgree(a: EnergyCalculator, b: EnergyCalculator)
    requires a.Valid() && b.Valid() && a.pic == b.pic
    ensures a.pixelEnergy.Length0 == b.pixelEnergy.Length0
    ensures a.pixelEnergy.Length1 == b.pixelEnergy.Length1
    ensures forall i, j :: 0 <= i < a.pixelEnergy.Length0 && 0 <= j < a.pixelEnergy.Length1 ==>
              a.pixelEnergy[i, j] == b.pixelEnergy[i, j]
  {
  }
}
