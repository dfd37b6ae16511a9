/**
 * The per-pixel energy map used as the cost function of seam carving.
 *
 * The energy of a pixel is the squared RGB distance between its left and right
 * neighbours plus the squared RGB distance between its upper and lower
 * neighbours, where neighbours wrap around the picture's edges (the picture is
 * treated as a torus). The source computes in `double` with `Math.pow`; every
 * operand is a channel value in [0, 255], so every intermediate value is an
 * integer of at most 6 * 255 * 255 and exact integer arithmetic gives the same
 * numbers.
 */
module EnergyCalculator {
  import opened Pictures

  /** Largest squared difference of one channel: 255 * 255. */
  const MaxChannelSquare := 65025

  /** Largest energy of a pixel: six squared channel differences. */
  const MaxEnergy := 6 * MaxChannelSquare

  /**
   * The index before `i` on a cyclic axis of length `n`: the left neighbour's
   * column, or the upper neighbour's row. Index 0 wraps to n - 1.
   */
  function WrapPrev(i: nat, n: nat): (p: nat)
    requires i < n
    ensures p < n
    ensures (p + 1) % n == i
  {
    if i - 1 < 0 then n - 1 else i - 1
  }

  /**
   * The index after `i` on a cyclic axis of length `n`: the right neighbour's
   * column, or the lower neighbour's row. Index n - 1 wraps to 0.
   */
  function WrapNext(i: nat, n: nat): (q: nat)
    requires i < n
    ensures q < n
    ensures q == (i + 1) % n
  {
    if i + 1 > n - 1 then 0 else i + 1
  }

  /** The square of a channel difference. */
  function Square(d: int): (s: int)
    ensures s >= 0
    ensures s == 0 <==> d == 0
    ensures -MaxChannel <= d <= MaxChannel ==> s <= MaxChannelSquare
  {
    d * d
  }

  /**
   * The squared Euclidean distance of two colours in RGB space: the sum over
   * the three channels of the squared channel difference.
   */
  function SquaredDistance(a: Color, b: Color): (d: int)
    ensures d >= 0
    ensures d == 0 <==> a == b
    ensures ValidColor(a) && ValidColor(b) ==> d <= 3 * MaxChannelSquare
  {
    Square(a.red - b.red) + Square(a.green - b.green) + Square(a.blue - b.blue)
  }

  /** The horizontal term: distance between the left and the right neighbour. */
  function DeltaX(pic: Picture, col: nat, row: nat): (d: int)
    requires pic.Valid()
    requires col < pic.width && row < pic.height
    ensures 0 <= d <= 3 * MaxChannelSquare
    ensures d == 0 <==> pic.Get(WrapPrev(col, pic.width), row) == pic.Get(WrapNext(col, pic.width), row)
  {
    SquaredDistance(pic.Get(WrapPrev(col, pic.width), row), pic.Get(WrapNext(col, pic.width), row))
  }

  /** The vertical term: distance between the upper and the lower neighbour. */
  function DeltaY(pic: Picture, col: nat, row: nat): (d: int)
    requires pic.Valid()
    requires col < pic.width && row < pic.height
    ensures 0 <= d <= 3 * MaxChannelSquare
    ensures d == 0 <==> pic.Get(col, WrapPrev(row, pic.height)) == pic.Get(col, WrapNext(row, pic.height))
  {
    SquaredDistance(pic.Get(col, WrapPrev(row, pic.height)), pic.Get(col, WrapNext(row, pic.height)))
  }

  /**
   * The energy of the pixel at (col, row): the horizontal plus the vertical
   * term. It is never negative, never above six squared channel ranges, and
   * zero exactly when both pairs of opposite neighbours have the same colour.
   */
  function CalculatePixelEnergy(pic: Picture, col: nat, row: nat): (e: int)
    requires pic.Valid()
    requires col < pic.width && row < pic.height
    ensures 0 <= e <= MaxEnergy
    ensures e == 0 <==>
      && pic.Get(WrapPrev(col, pic.width), row) == pic.Get(WrapNext(col, pic.width), row)
      && pic.Get(col, WrapPrev(row, pic.height)) == pic.Get(col, WrapNext(row, pic.height))
  {
    DeltaX(pic, col, row) + DeltaY(pic, col, row)
  }

  /**
   * Computes, once and in full at construction, the energy of every pixel of
   * a picture into a `width` x `height` grid indexed [col, row].
   */
  class EnergyCalculator {
    const pic: Picture
    const height: nat
    const width: nat
    var pixelEnergy: array2<int>

    /** The grid has the picture's dimensions and holds every pixel's energy. */
    ghost predicate Valid()
      reads this, pixelEnergy
    {
      && pic.Valid()
      && width == pic.width && height == pic.height
      && pixelEnergy.Length0 == width && pixelEnergy.Length1 == height
      && forall i, j :: 0 <= i < width && 0 <= j < height ==>
           pixelEnergy[i, j] == CalculatePixelEnergy(pic, i, j)
    }

    constructor (pic: Picture)
      requires pic.Valid()
      ensures Valid()
      ensures this.pic == pic && width == pic.width && height == pic.height
      ensures fresh(pixelEnergy)
      ensures pixelEnergy.Length0 == pic.width && pixelEnergy.Length1 == pic.height
      ensures forall i, j :: 0 <= i < pic.width && 0 <= j < pic.height ==>
                pixelEnergy[i, j] == CalculatePixelEnergy(pic, i, j)
    {
      this.pic := pic;
      this.height := pic.height;
      this.width := pic.width;
      pixelEnergy := new int[pic.width, pic.height];
      new;
      for i := 0 to width
        modifies pixelEnergy
        invariant forall a, b :: 0 <= a < i && 0 <= b < height ==>
                    pixelEnergy[a, b] == CalculatePixelEnergy(pic, a, b)
      {
        for j := 0 to height
          modifies pixelEnergy
          invariant forall a, b :: 0 <= a < i && 0 <= b < height ==>
                      pixelEnergy[a, b] == CalculatePixelEnergy(pic, a, b)
          invariant forall b :: 0 <= b < j ==> pixelEnergy[i, b] == CalculatePixelEnergy(pic, i, b)
        {
          pixelEnergy[i, j] := CalculatePixelEnergy(pic, i, j);
        }
      }
    }

    /** The completed grid: the picture's dimensions, one energy per pixel. */
    method GetPixelEnergy() returns (grid: array2<int>)
      requires Valid()
      ensures grid == pixelEnergy
      ensures grid.Length0 == width && grid.Length1 == height
      ensures forall i, j :: 0 <= i < width && 0 <= j < height ==>
                grid[i, j] == CalculatePixelEnergy(pic, i, j)
    {
      grid := pixelEnergy;
    }
  }
}
