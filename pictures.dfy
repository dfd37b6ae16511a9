/**
 * The picture the energy calculator reads: an immutable grid of RGB colours
 * addressed as (column, row), column 0 on the left and row 0 at the top.
 * Loading, decoding and storing pictures is not part of this model; a picture
 * is simply a value that the calculator can read and never changes.
 */
module Pictures {

  /** The largest value of one colour channel. */
  const MaxChannel := 255

  /** A colour as the picture's accessor reports it: red, green and blue channels. */
  datatype Color = Color(red: int, green: int, blue: int)

  /** Every channel lies in [0, 255]. */
  predicate ValidColor(c: Color) {
    0 <= c.red <= MaxChannel && 0 <= c.green <= MaxChannel && 0 <= c.blue <= MaxChannel
  }

  /**
   * A picture of `width` columns of `height` pixels each; `columns[col][row]`
   * is the colour of the pixel at (col, row).
   */
  datatype Picture = Picture(width: nat, height: nat, columns: seq<seq<Color>>)
  {
    predicate Valid() {
      && |columns| == width
      && (forall col :: 0 <= col < width ==> |columns[col]| == height)
      && (forall col, row :: 0 <= col < width && 0 <= row < height ==> ValidColor(columns[col][row]))
    }

    /** The colour of the pixel at (col, row). */
    function Get(col: nat, row: nat): (c: Color)
      requires Valid()
      requires col < width && row < height
      ensures ValidColor(c)
    {
      columns[col][row]
    }
  }
}
