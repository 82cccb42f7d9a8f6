/** The depth-buffered canvas: a `height x width` grid of pixels updated in
    place by depth-tested plots, and its row-major text serialisation. */
module Raster {
  import opened Geometry
  import opened Shade

  /** A grid of exactly `h` rows of `w` pixels each. */
  ghost predicate Shaped(g: seq<seq<Pixel>>, w: nat, h: nat)
  {
    |g| == h && forall r :: 0 <= r < h ==> |g[r]| == w
  }

  /** The pixel every cell of a fresh canvas holds: no light, infinitely far. */
  const Untouched: Pixel := Pixel(0.0, Far)

  /** The grid of a fresh canvas. */
  function Blank(w: nat, h: nat): (g: seq<seq<Pixel>>)
    ensures Shaped(g, w, h)
    ensures forall r, c :: 0 <= r < h && 0 <= c < w ==> g[r][c].light == 0.0 && g[r][c].z == Far
  {
    seq(h, _ => seq(w, _ => Untouched))
  }

  /** True when pixel coordinates `(cx, cy)` address a cell of the grid. */
  predicate InBounds(cx: int, cy: int, w: nat, h: nat)
  {
    0 <= cx < w && 0 <= cy < h
  }

  /** The grid after plotting a sample of depth `z` and light `l` at pixel
      `(cx, cy)`: only an in-bounds cell whose stored depth is strictly
      farther than `z` is overwritten, and nothing else changes. */
  function Plotted(g: seq<seq<Pixel>>, w: nat, h: nat, cx: int, cy: int, z: real, l: real): (g': seq<seq<Pixel>>)
    requires Shaped(g, w, h)
    ensures Shaped(g', w, h)
    ensures !InBounds(cx, cy, w, h) ==> g' == g
    ensures forall r, c :: 0 <= r < h && 0 <= c < w && (r != cy || c != cx) ==> g'[r][c] == g[r][c]
    ensures InBounds(cx, cy, w, h) && Nearer(z, g[cy][cx].z) ==> g'[cy][cx] == Pixel(l, Finite(z))
    ensures InBounds(cx, cy, w, h) && !Nearer(z, g[cy][cx].z) ==> g' == g
  {
    if InBounds(cx, cy, w, h) && Nearer(z, g[cy][cx].z) then
      g[cy := g[cy][cx := Pixel(l, Finite(z))]]
    else
      g
  }

  /** A sample at the same depth as the stored one keeps the stored pixel,
      so plotting the same sample twice is the same as plotting it once. */
  lemma PlotIdempotent(g: seq<seq<Pixel>>, w: nat, h: nat, cx: int, cy: int, z: real, l: real)
    requires Shaped(g, w, h)
    ensures Plotted(Plotted(g, w, h, cx, cy, z, l), w, h, cx, cy, z, l) == Plotted(g, w, h, cx, cy, z, l)
  {
    var g1: seq<seq<Pixel>> := Plotted(g, w, h, cx, cy, z, l);
    if InBounds(cx, cy, w, h) && Nearer(z, g[cy][cx].z) {
      assert g1[cy][cx].z == Finite(z) && !Nearer(z, g1[cy][cx].z);
    }
  }

  /** Two samples landing on the same cell at different depths give the
      same grid whichever is plotted first: the nearer one wins. */
  lemma PlotOrderIndependent(g: seq<seq<Pixel>>, w: nat, h: nat, cx: int, cy: int,
                             z1: real, l1: real, z2: real, l2: real)
    requires Shaped(g, w, h)
    requires z1 < z2
    ensures Plotted(Plotted(g, w, h, cx, cy, z1, l1), w, h, cx, cy, z2, l2)
         == Plotted(Plotted(g, w, h, cx, cy, z2, l2), w, h, cx, cy, z1, l1)
    ensures InBounds(cx, cy, w, h) && Nearer(z1, g[cy][cx].z) ==>
              Plotted(Plotted(g, w, h, cx, cy, z2, l2), w, h, cx, cy, z1, l1)[cy][cx] == Pixel(l1, Finite(z1))
  {
    if InBounds(cx, cy, w, h) {
      var a := Plotted(g, w, h, cx, cy, z1, l1);
      var b := Plotted(g, w, h, cx, cy, z2, l2);
      var ab := Plotted(a, w, h, cx, cy, z2, l2);
      var ba := Plotted(b, w, h, cx, cy, z1, l1);
      if Nearer(z1, g[cy][cx].z) {
        assert ab == a;
        assert ba[cy][cx] == a[cy][cx];
        assert ba == a by {
          forall r | 0 <= r < h ensures ba[r] == a[r] {
            if r == cy {
              assert forall c :: 0 <= c < w ==> ba[r][c] == a[r][c];
            }
          }
        }
      } else {
        assert !Nearer(z2, g[cy][cx].z);
        assert a == g && b == g;
      }
    }
  }

  /** The line the source prints before the grid. */
  const Greeting: string := "Hello, World!\n"

  /** The characters of one row, one per pixel. */
  function RowText(row: seq<Pixel>): string
  {
    if row == [] then [] else RowText(row[..|row| - 1]) + [ToChar(row[|row| - 1])]
  }

  /** The grid as text: each row's characters followed by a line break. */
  function Render(g: seq<seq<Pixel>>): string
  {
    if g == [] then [] else Render(g[..|g| - 1]) + RowText(g[|g| - 1]) + "\n"
  }

  /** Row text has one character per pixel, the shade of that pixel. */
  lemma {:induction false} RowTextAt(row: seq<Pixel>)
    ensures |RowText(row)| == |row|
    ensures forall c :: 0 <= c < |row| ==> RowText(row)[c] == ToChar(row[c])
  {
    if row != [] {
      RowTextAt(row[..|row| - 1]);
    }
  }

  /** Position of column `c` of line `r` in text made of lines of `w`
      characters, each followed by a line break. */
  function Offset(r: nat, c: nat, w: nat): nat
  {
    if r == 0 then c else Offset(r - 1, c, w) + (w + 1)
  }

  /** `Offset` is the usual row-major position. */
  lemma {:induction false} OffsetIsProduct(r: nat, c: nat, w: nat)
    ensures Offset(r, c, w) == r * (w + 1) + c
  {
    if r > 0 {
      OffsetIsProduct(r - 1, c, w);
      assert r * (w + 1) == (r - 1) * (w + 1) + (w + 1);
    }
  }

  /** Every position of an earlier line comes before the start of a later one. */
  lemma {:induction false} OffsetBefore(r: nat, c: nat, r': nat, w: nat)
    requires r < r' && c <= w
    ensures Offset(r, c, w) < Offset(r', 0, w)
  {
    if r' > r + 1 {
      OffsetBefore(r, c, r' - 1, w);
    } else {
      OffsetShift(r, c, w);
    }
  }

  /** Moving along a line moves the position by the same amount. */
  lemma {:induction false} OffsetShift(r: nat, c: nat, w: nat)
    ensures Offset(r, c, w) == Offset(r, 0, w) + c
  {
    if r > 0 {
      OffsetShift(r - 1, c, w);
    }
  }

  /** Every position splits into its line and its column. */
  lemma OffsetSplit(i: nat, w: nat)
    ensures i % (w + 1) <= w
    ensures i == Offset(i / (w + 1), i % (w + 1), w)
  {
    OffsetIsProduct(i / (w + 1), i % (w + 1), w);
  }

  /** What the serialised grid holds at column `c <= w` of line `r`. */
  function CellText(g: seq<seq<Pixel>>, r: nat, c: nat, w: nat): char
    requires r < |g| && c <= w && |g[r]| == w
  {
    if c < w then ToChar(g[r][c]) else '\n'
  }

  /** The serialised grid has `w + 1` characters per row. */
  lemma {:induction false} RenderLength(g: seq<seq<Pixel>>, w: nat, h: nat)
    requires Shaped(g, w, h)
    ensures |Render(g)| == Offset(h, 0, w)
  {
    if h > 0 {
      assert Shaped(g[..h - 1], w, h - 1);
      RenderLength(g[..h - 1], w, h - 1);
      RowTextAt(g[h - 1]);
    }
  }

  /** One character of the serialised grid. */
  lemma {:induction false} RenderAt(g: seq<seq<Pixel>>, w: nat, h: nat, r: nat, c: nat)
    requires Shaped(g, w, h) && r < h && c <= w
    ensures Offset(r, c, w) < |Render(g)|
    ensures Render(g)[Offset(r, c, w)] == CellText(g, r, c, w)
  {
    var init := g[..h - 1];
    var front, line := Render(init), RowText(g[h - 1]) + "\n";
    assert Shaped(init, w, h - 1);
    RenderLength(init, w, h - 1);
    RowTextAt(g[h - 1]);
    assert Render(g) == front + line;
    if r < h - 1 {
      OffsetBefore(r, c, h - 1, w);
      RenderAt(init, w, h - 1, r, c);
      assert init[r] == g[r];
    } else {
      OffsetShift(r, c, w);
      assert (front + line)[Offset(r, c, w)] == line[c];
    }
  }


  /** The layout of the serialised grid: `h` lines of `w` characters, the
      character at column `c` of line `r` being the shade of `g[r][c]`, and
      each line ended by a line break. */
  lemma RenderLayout(g: seq<seq<Pixel>>, w: nat, h: nat)
    requires Shaped(g, w, h)
    ensures |Render(g)| == h * (w + 1)
    ensures forall r, c :: 0 <= r < h && 0 <= c < w ==>
              Offset(r, c, w) < |Render(g)| && Render(g)[Offset(r, c, w)] == ToChar(g[r][c])
    ensures forall r :: 0 <= r < h ==> Offset(r, w, w) < |Render(g)| && Render(g)[Offset(r, w, w)] == '\n'
  {
    RenderLength(g, w, h);
    OffsetIsProduct(h, 0, w);
    forall r, c | 0 <= r < h && 0 <= c <= w
      ensures Offset(r, c, w) < |Render(g)| && Render(g)[Offset(r, c, w)] == CellText(g, r, c, w)
    {
      RenderAt(g, w, h, r, c);
    }
  }

  /** Line breaks of the serialised grid sit exactly at the end of each line
      of `w` characters. */
  lemma RenderLineBreaks(g: seq<seq<Pixel>>, w: nat, h: nat)
    requires Shaped(g, w, h)
    ensures |Render(g)| == h * (w + 1)
    ensures forall i :: 0 <= i < |Render(g)| ==> (Render(g)[i] == '\n' <==> i % (w + 1) == w)
  {
    RenderLength(g, w, h);
    OffsetIsProduct(h, 0, w);
    forall i | 0 <= i < |Render(g)| ensures Render(g)[i] == '\n' <==> i % (w + 1) == w {
      OffsetSplit(i, w);
      var r, c := i / (w + 1), i % (w + 1);
      RowBound(r, c, w, h, i);
      RenderAt(g, w, h, r, c);
    }
  }

  /** The line index of a position inside `h` lines is below `h`. */
  lemma RowBound(r: nat, c: nat, w: nat, h: nat, i: nat)
    requires i == Offset(r, c, w) && c <= w && i < Offset(h, 0, w)
    ensures r < h
  {
    if h <= r {
      if h < r {
        OffsetBefore(h, 0, r, w);
      }
      OffsetShift(r, c, w);
    }
  }

  /** A fresh canvas serialises to `h` lines of `w` spaces. */
  lemma BlankRendersSpaces(w: nat, h: nat)
    ensures |Render(Blank(w, h))| == h * (w + 1)
    ensures forall i :: 0 <= i < |Render(Blank(w, h))| ==>
              Render(Blank(w, h))[i] == if i % (w + 1) == w then '\n' else ' '
  {
    var g := Blank(w, h);
    RenderLength(g, w, h);
    OffsetIsProduct(h, 0, w);
    forall i | 0 <= i < |Render(g)| ensures Render(g)[i] == if i % (w + 1) == w then '\n' else ' ' {
      OffsetSplit(i, w);
      var r, c := i / (w + 1), i % (w + 1);
      RowBound(r, c, w, h, i);
      RenderAt(g, w, h, r, c);
    }
  }

  /** Serialising one more row appends that row's line. */
  lemma RenderPrefix(g: seq<seq<Pixel>>, r: nat)
    requires r < |g|
    ensures Render(g[..r + 1]) == Render(g[..r]) + RowText(g[r]) + "\n"
  {
    assert g[..r + 1][..r] == g[..r];
  }

  /** The characters of one row, built one pixel at a time as the inner
      loop of the serialisation does. */
  method RowChars(row: seq<Pixel>) returns (line: string)
    ensures line == RowText(row)
    ensures |line| == |row| && forall c :: 0 <= c < |row| ==> line[c] == ToChar(row[c])
  {
    line := [];
    var c := 0;
    while c < |row|
      invariant 0 <= c <= |row|
      invariant line == RowText(row[..c])
    {
      line := line + [ToChar(row[c])];
      c := c + 1;
      assert row[..c][..c - 1] == row[..c - 1];
    }
    assert row[..c] == row;
    RowTextAt(row);
  }

  /** The canvas one frame is rendered into. The camera position, projection
      scale and light intensity are fixed at construction; the pixel grid
      is overwritten in place by plots. */
  class Canvas {
    /** Camera position. */
    var site: Point
    /** Focal scale of the perspective projection. */
    var scale: real
    /** Light intensity multiplier. */
    var light: real
    var width: nat
    var height: nat
    /** Row-major pixel grid: `pixels[cy][cx]`. */
    var pixels: seq<seq<Pixel>>

    ghost predicate Valid()
      reads this
    {
      Shaped(pixels, width, height)
    }

    /** A canvas of `w x h` untouched pixels seen from `at`; the terminal
        size the source queries is passed in as `w` and `h`. */
    constructor WithSiteFrom(at: Point, w: nat, h: nat)
      ensures Valid()
      ensures site == at && scale == 150.0 && light == 2.0
      ensures width == w && height == h && pixels == Blank(w, h)
    {
      site := at;
      scale := 150.0;
      light := 2.0;
      width := w;
      height := h;
      pixels := Blank(w, h);
    }

    /** Depth-tested write of one projected sample: pixel `(cx, cy)`,
        depth `z`, light `l`. */
    method Plot(cx: int, cy: int, z: real, l: real)
      requires Valid()
      modifies this`pixels
      ensures Valid()
      ensures pixels == Plotted(old(pixels), width, height, cx, cy, z, l)
    {
      if InBounds(cx, cy, width, height) && Nearer(z, pixels[cy][cx].z) {
        pixels := pixels[cy := pixels[cy][cx := Pixel(l, Finite(z))]];
      }
    }

    /** The text the source prints for the canvas: the greeting line, then
        every row's characters followed by a line break. */
    method Show() returns (text: string)
      requires Valid()
      ensures text == Greeting + Render(pixels)
      ensures |text| == |Greeting| + height * (width + 1)
    {
      text := Greeting;
      var r := 0;
      while r < |pixels|
        invariant 0 <= r <= |pixels|
        invariant text == Greeting + Render(pixels[..r])
      {
        var line := RowChars(pixels[r]);
        RenderPrefix(pixels, r);
        text := text + line + "\n";
        r := r + 1;
      }
      assert pixels[..r] == pixels;
      RenderLength(pixels, width, height);
      OffsetIsProduct(height, 0, width);
    }
  }
}
