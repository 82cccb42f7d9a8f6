# ttyspace rasterizer core, modelled in Dafny

ttyspace draws a shaded sphere on a text terminal. It samples the sphere's surface and projects every sample through a perspective camera onto a `height x width` canvas of pixels. Each pixel keeps the nearest sample that landed on it, using a depth buffer. Each pixel's light value is then shown as one glyph of a 70-character ASCII ramp.

This project models the discrete core of that pipeline:

- `geometry.dfy` (module `Geometry`): points, spheres, and the real-valued helpers `At`, `Add` and `Dot`.
- `shade.dfy` (module `Shade`): `Pixel` and `Depth`.
  - `Depth` is `Finite(z)` or `Far`. `Far` stands in for the `f64::MAX` initial depth, and every real depth is nearer than it.
  - Also here: the reversed 70-glyph ramp, Rust's round-half-away-from-zero written with `Floor`, the clamped shade index and `ToChar`.
- `canvas.dfy` (module `Raster`): the class `Canvas`.
  - Its fields are the camera site, the projection scale, the light intensity, the width, the height and a `seq<seq<Pixel>>` grid.
  - Its constructor builds a blank grid.
  - `Plot`, a method, does the bounds-checked, strictly-nearer write of one sample.
  - It has the pure counterpart `Plotted` and row-major serialisation: the pure `Render` and the looping method `Show`.
- `sphere.dfy` (module `Scene`): the driver loop of `Sphere::light`.
  - It plots a sequence of already projected samples.
  - `PlotAll` is the pure fold of the depth-tested plot over the samples.
  - The predicate `NearestWins` states the per-pixel rule "nearest sample wins, and the first of equally near samples wins". `PlotAllNearestWins` proves it of `PlotAll`, and it is the loop invariant of `SphereLight`.
  - Also here: the lighting rule `dot(norm, (-1,-1,-1)) * intensity`.

Floating-point numbers are modelled as exact reals.

`Show` returns the text that the source prints. That text starts with the line `Hello, World!`, which the source prints before the grid (src/main.rs:103).

## Model

| member | source | states |
|---|---|---|
| Shade.RampFacts | src/main.rs:73 | the ramp, the source's glyph string reversed, has 70 glyphs, starts with a space then `.`, ends with `$`, and holds no line break |
| Shade.Round | src/main.rs:74 | rounding lands within 1/2 of its argument, and a halfway case goes away from zero |
| Shade.RoundMonotone | src/main.rs:74 | rounding never decreases as its argument grows |
| Shade.ShadeIndex | src/main.rs:74 | the index is in `[0, 69]`; light `<= 0` gives 0; 69 is reached exactly when `light*70 >= 68.5`; for every positive light below that, the index is within 1/2 of `light*70` |
| Shade.ShadeIndexMonotone | src/main.rs:74 | the shade index is monotonically non-decreasing in the light value |
| Shade.ToChar | src/main.rs:72-76 | a pixel's glyph is never a line break, and any pixel with light `<= 0` is the space |
| Shade.ToCharMonotone | src/main.rs:72-76 | a brighter pixel's glyph sits at a ramp index no lower than a dimmer pixel's |
| Raster.Blank | src/main.rs:97-99 | a fresh grid has `h` rows of `w` pixels, each with light 0 and the far depth |
| Raster.Plotted | src/main.rs:53-58 | an out-of-bounds plot leaves the grid unchanged; every cell other than `[cy][cx]` is unchanged and the dimensions are kept; the target cell becomes `{light, z}` only when `z` is strictly nearer than its stored depth, and otherwise (ties included) the grid is unchanged |
| Raster.PlotIdempotent | src/main.rs:55-58 | plotting the same sample twice gives the same grid as plotting it once, because an equal depth does not overwrite |
| Raster.PlotOrderIndependent | src/main.rs:55-58 | two samples on one cell at different depths give the same grid in either order, and the nearer one's pixel is the one kept |
| Raster.RowTextAt | src/main.rs:105-107 | a row serialises to one glyph per pixel, in order |
| Raster.RowChars | src/main.rs:105-107 | the inner loop builds one character per pixel: the glyph of each pixel, in order |
| Raster.RenderLength | src/main.rs:104-109 | the serialised grid has `w + 1` characters per row |
| Raster.RenderAt | src/main.rs:104-109 | the character at column `c` of line `r` is the glyph of `pixels[r][c]`, and column `w` is a line break |
| Raster.RenderLayout | src/main.rs:104-109 | the serialised grid has `h*(w+1)` characters, laid out row-major: the glyph of each pixel, then a line break after each row |
| Raster.RenderLineBreaks | src/main.rs:104-109 | a character is a line break exactly when its position is `w` modulo `w+1`, so the text is `h` lines of `w` characters |
| Raster.BlankRendersSpaces | src/main.rs:97-110 | an untouched canvas serialises to `h` lines of `w` spaces |
| Raster.Canvas.WithSiteFrom | src/main.rs:89-101 | the canvas has the given site, scale 150, intensity 2, the given width and height, and a blank grid |
| Raster.Canvas.Plot | src/main.rs:53-58 | the canvas plot updates the grid exactly as `Plotted` does and keeps the canvas well formed |
| Raster.Canvas.Show | src/main.rs:102-110 | the text is the greeting line followed by the row-major serialisation of the grid, with `14 + h*(w+1)` characters in all |
| Scene.IlluminationFacing | src/main.rs:57 | with a positive intensity, a sample's light is positive exactly when its normal faces the light direction `(-1,-1,-1)`, and negative exactly when it faces away |
| Scene.FacingAwayIsBlank | src/main.rs:57 | with a non-negative intensity, a sample whose normal does not face the light is drawn as the space, whatever its depth |
| Scene.PlotAll | src/main.rs:37-62 | plotting any sequence of samples keeps the grid's dimensions |
| Scene.NearestWinsStep | src/main.rs:53-58 | one more depth-tested plot preserves the per-pixel nearest-sample-wins rule |
| Scene.PlotAllNearestWins | src/main.rs:37-62 | after any sequence of samples, with each sample's depth the z of the sphere centre plus its normal, each pixel's depth is no farther than every sample landing on it or its old value. It either kept its old value (no landing sample strictly nearer) or holds the light and depth of the first landing sample that is strictly nearer than every earlier one |
| Scene.OffCanvasSamplesIgnored | src/main.rs:53-54 | samples that all project outside the canvas leave it unchanged |
| Scene.FreshCanvasPixels | src/main.rs:37-62 | on a fresh canvas, a pixel stays blank exactly when no sample lands on it; no sample landing on it is strictly nearer than what it holds; and a pixel that is not blank holds the light and depth of the first landing sample that is nearer than all earlier ones, so it holds the first of the nearest samples |
| Scene.SphereLight | src/main.rs:37-62 | rasterising the samples in order leaves the grid equal to `PlotAll` of them, and every pixel obeys the nearest-sample-wins rule |

## Left out

- Terminal size (src/main.rs:90): `term_size::dimensions().unwrap()` is terminal I/O. The width and height are parameters of `Canvas.WithSiteFrom`, so the panic when no terminal is available is not modelled.
- Printing (src/main.rs:103-108): `Show` returns the text instead of writing it to standard output.
- Spherical sampling (src/main.rs:38-46): the fixed 300 x 300 grid and `sin`/`cos` are transcendental float arithmetic with no Dafny counterpart. `SphereLight` takes the samples as a sequence, each carrying its normal, in the order the two nested loops produce them.
- Perspective projection and `round() as i32` (src/main.rs:48-52): the division by `dz` is IEEE float arithmetic, including the unguarded `dz == 0` division and NaN comparisons. Each sample carries its already projected pixel `(cx, cy)`, so the canvas fields `site` and `scale` are stored but never read.
- Canvas.Plot: the source compares `cx` and `cy` with `width as i32` and `height as i32`. That comparison would wrap for widths above `2^31 - 1`; the model compares unbounded integers.
- Depth sentinel: `f64::MAX` is the abstract `Far`, which every real depth beats. In the source, a sample whose depth is exactly `f64::MAX`, or NaN, would not win against an untouched pixel.
- Shade.ShadeIndex: on real numbers only. NaN light (which `f64::max` turns into 0) and the saturating `as usize` cast are not modelled. That cast gives the same clamped index for the huge values where it saturates.
- `main` (src/main.rs:113-118): it is wiring only. It builds one sphere, one canvas at site `(0, 0, -5)`, rasterises and shows.
