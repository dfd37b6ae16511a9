# Seam-carving energy map in Dafny

This project models the energy calculator of the SeamCarver program. The
calculator builds the per-pixel "energy" map that seam carving uses as its
cost function.

For a pixel at (col, row), the energy is ΔX + ΔY:

- ΔX is the squared RGB distance between the pixel's left and right
  neighbours.
- ΔY is the squared RGB distance between its upper and lower neighbours.

Neighbours wrap around the edges of the picture, so the picture behaves as a
torus:

- the left neighbour of column 0 is column `width - 1`;
- the right neighbour of the last column is column 0;
- rows wrap in the same way.

The `EnergyCalculator` object computes the whole map once, in its
constructor. It allocates a `width x height` grid indexed `[col][row]` and
fills it with a nested loop. `getPixelEnergy` then hands out the grid.

Files:

- `pictures.dfy` (module `Pictures`): the picture the calculator reads. A
  picture is an immutable value of `width` columns of `height` colours, each
  channel in [0, 255].
- `energy_calculator.dfy` (module `EnergyCalculator`): the energy function as
  pure functions, and the class `EnergyCalculator`.
  - `WrapPrev` and `WrapNext` pick the neighbour indices, with the same
    branch conditions as the source.
  - `Square`, `SquaredDistance`, `DeltaX`, `DeltaY` and
    `CalculatePixelEnergy` give the arithmetic.
  - The class's constructor fills an `array2<int>` with two nested `for`
    loops.
  - `GetPixelEnergy` returns the filled array.
- `energy_properties.dfy` (module `EnergyProperties`): lemmas about the energy
  function and the built map.

The source computes in `double` with `Math.pow`. Every operand is a channel
value in [0, 255], so every intermediate value is an integer no larger than
6 * 255 * 255 = 390150. Doubles hold such integers exactly, so the model uses
exact `int` arithmetic and gets the same values.

The Java constructor has no check for a zero width or height
(SeamCarver/src/EnergyCalculator/EnergyCalculator.java:23-38):

- With a zero dimension, `new double[width][height]` succeeds, both loops run
  zero times, and the grid is empty.
- The model's constructor therefore accepts empty pictures, and any other
  well-formed picture, and builds a grid of the picture's dimensions.
- Only the per-pixel energy function requires a pixel that exists, which
  implies `width >= 1` and `height >= 1`. In the source it is private and is
  only called from the constructor's loops.

## Model

| member | source | states |
|---|---|---|
| EnergyCalculator.WrapPrev | SeamCarver/src/EnergyCalculator/EnergyCalculator.java:66-79 | the left (or upper) neighbour index is always inside the axis, and it is the cyclic predecessor: its successor modulo the axis length is the pixel's own index, so index 0 wraps to the last index |
| EnergyCalculator.WrapNext | SeamCarver/src/EnergyCalculator/EnergyCalculator.java:84-97 | the right (or lower) neighbour index is always inside the axis and equals (i + 1) modulo the axis length, so the last index wraps to 0 |
| EnergyCalculator.Square | SeamCarver/src/EnergyCalculator/EnergyCalculator.java:138 | a squared channel difference is non-negative, is zero exactly when the difference is zero, and is at most 255² for channel differences |
| EnergyCalculator.SquaredDistance | SeamCarver/src/EnergyCalculator/EnergyCalculator.java:138-143 | the squared RGB distance is non-negative, is zero exactly when the two colours are equal, and is at most 3 * 255² for valid colours |
| EnergyCalculator.DeltaX | SeamCarver/src/EnergyCalculator/EnergyCalculator.java:138 | the horizontal term lies in [0, 3 * 255²] and is zero exactly when the wrapped left and right neighbours have the same colour |
| EnergyCalculator.DeltaY | SeamCarver/src/EnergyCalculator/EnergyCalculator.java:143 | the vertical term lies in [0, 3 * 255²] and is zero exactly when the wrapped upper and lower neighbours have the same colour |
| EnergyCalculator.CalculatePixelEnergy | SeamCarver/src/EnergyCalculator/EnergyCalculator.java:58-146 | a pixel's energy lies in [0, 6 * 255²] and is zero exactly when both pairs of opposite wrapped neighbours have equal colours |
| EnergyCalculator.EnergyCalculator.constructor | SeamCarver/src/EnergyCalculator/EnergyCalculator.java:23-38 | keeps the picture and its dimensions; allocates a fresh grid of exactly width x height; afterwards every cell [i, j] holds the energy of pixel (i, j); the loop invariants say that all earlier columns and the earlier rows of the current column are filled |
| EnergyCalculator.EnergyCalculator.GetPixelEnergy | SeamCarver/src/EnergyCalculator/EnergyCalculator.java:47-49 | returns the calculator's own grid, which has the picture's dimensions and holds every pixel's energy |
| EnergyProperties.WrapRoundTrip | SeamCarver/src/EnergyCalculator/EnergyCalculator.java:66-97 | the two neighbour choices are inverse to each other: the left neighbour of the right neighbour is the pixel itself, and the other way round |
| EnergyProperties.NeighboursCoincide | SeamCarver/src/EnergyCalculator/EnergyCalculator.java:66-133 | the two opposite neighbours on an axis are the same index exactly when the axis has at most two positions |
| EnergyProperties.WrapReflect | SeamCarver/src/EnergyCalculator/EnergyCalculator.java:66-97 | reflecting an axis swaps left and right neighbours |
| EnergyProperties.SquaredDistanceSymmetric | SeamCarver/src/EnergyCalculator/EnergyCalculator.java:138-143 | the distance does not depend on which neighbour is subtracted from which |
| EnergyProperties.NarrowPictureHasNoHorizontalTerm | SeamCarver/src/EnergyCalculator/EnergyCalculator.java:66-97 | in a picture at most two columns wide, left and right neighbours coincide, so ΔX is 0 for every pixel |
| EnergyProperties.ShortPictureHasNoVerticalTerm | SeamCarver/src/EnergyCalculator/EnergyCalculator.java:102-133 | in a picture at most two rows high, upper and lower neighbours coincide, so ΔY is 0 for every pixel |
| EnergyProperties.TinyPictureHasZeroEnergy | SeamCarver/src/EnergyCalculator/EnergyCalculator.java:66-145 | every pixel of a 1 x 1, 1 x 2, 2 x 1 or 2 x 2 picture has energy 0; on an axis of length 1 both neighbours are the pixel's own column (or row), so in a 1 x 1 picture all four neighbours are the pixel itself |
| EnergyProperties.UniformPictureHasZeroEnergy | SeamCarver/src/EnergyCalculator/EnergyCalculator.java:138-145 | in a single-colour picture of any size every pixel has energy 0 |
| EnergyProperties.TransposeKeepsEnergy | SeamCarver/src/EnergyCalculator/EnergyCalculator.java:58-146 | exchanging columns and rows exchanges ΔX and ΔY, so each pixel keeps its energy |
| EnergyProperties.MirrorKeepsEnergy | SeamCarver/src/EnergyCalculator/EnergyCalculator.java:58-146 | reflecting the picture left to right moves each pixel's energy with the pixel, the wrapped edge columns included |
| EnergyProperties.Advance | SeamCarver/src/EnergyCalculator/EnergyCalculator.java:84-97 | stepping k times to the wrapped right neighbour from index i lands on (i + k) modulo the axis length, always inside the axis |
| EnergyProperties.AdvanceCommutes | SeamCarver/src/EnergyCalculator/EnergyCalculator.java:66-97 | stepping k columns to the right commutes with taking the left or the right neighbour |
| EnergyProperties.WrapPrevIsModular | SeamCarver/src/EnergyCalculator/EnergyCalculator.java:66-79 | the branch that picks the left (or upper) neighbour computes i - 1 modulo the axis length |
| EnergyProperties.MatchesReferenceEnergy | SeamCarver/src/EnergyCalculator/EnergyCalculator.java:58-146 | for every pixel, the computed energy equals the closed formula: neighbours (c - 1) mod width and (c + 1) mod width, rows likewise, and the six squared channel differences summed (ΔX + ΔY) |
| EnergyProperties.TranslateKeepsEnergy | SeamCarver/src/EnergyCalculator/EnergyCalculator.java:58-146 | rotating the picture k columns around the torus rotates the energy map with it: the energy at column col of the rotated picture is the energy at column (col + k) modulo the width of the original, so the wrapped edge columns are treated exactly like inner ones |
| EnergyProperties.BrightCentreEnergy | SeamCarver/src/EnergyCalculator/EnergyCalculator.java:58-146 | in a 3 x 3 black picture with a white centre, the four pixels next to the centre have positive energy, exactly 3 * 255² (the full black-to-white distance along one axis); the four corners and the centre have energy 0 |
| EnergyProperties.BuiltMapsAgree | SeamCarver/src/EnergyCalculator/EnergyCalculator.java:23-38 | two calculators built from the same picture hold grids of the same dimensions with identical contents |

## Left out

- The picture library (`edu.princeton.cs.algs4.Picture`, `java.awt.Color`) is
  not part of this model. It loads, decodes and stores images. A picture is
  modelled as an immutable grid of RGB triples with channels in [0, 255].
  Because it is a value, "construction never modifies the picture" holds by
  construction.
- `double` and `Math.pow` are modelled as exact integer arithmetic. This gives
  the same values, because every operand and intermediate is a small integer.
- EnergyCalculator.EnergyCalculator.GetPixelEnergy: returns the internal
  array, as the source does. The model does not reason about callers who
  write into that array afterwards (aliasing).
- A null picture, which makes the Java constructor throw, is not modelled.
  A Dafny datatype value cannot be null.
- Java `int` overflow is not modelled. Indices stay below `width` and
  `height`, and `col + 1` is at most `width`, so no overflow can occur.
- Seam search, seam removal, display and file I/O are not part of this model.
