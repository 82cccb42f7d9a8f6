/** Rasterising a sphere into a canvas: every projected surface sample is
    plotted in turn, and each pixel ends up holding the nearest sample that
    landed on it, the first one when several are equally near. */
module Scene {
  import opened Geometry
  import opened Shade
  import opened Raster

  /** One surface sample of a sphere after projection: its normal, i.e. its
      offset from the sphere's centre, and the pixel `(cx, cy)` it projects to. */
  datatype Sample = Sample(norm: Point, cx: int, cy: int)

  /** Depth of a sample: the z coordinate of the world point `pos + norm`. */
  function SampleDepth(sphere: Sphere, s: Sample): real
  {
    Add(sphere.pos, s.norm).z
  }

  /** The fixed light direction of the scene, pointing from the light towards
      the origin; it is deliberately not normalised. */
  const LightDirection: Point := At(-1.0, -1.0, -1.0)

  /** The light value of a surface sample with normal `norm` on a canvas of
      light intensity `intensity`. */
  function Illumination(norm: Point, intensity: real): real
  {
    Dot(norm, LightDirection) * intensity
  }

  /** With a positive intensity, a sample is lit exactly when its normal
      faces the light direction, and dark exactly when it faces away. */
  lemma IlluminationFacing(norm: Point, intensity: real)
    requires intensity > 0.0
    ensures Dot(norm, LightDirection) > 0.0 <==> Illumination(norm, intensity) > 0.0
    ensures Dot(norm, LightDirection) < 0.0 <==> Illumination(norm, intensity) < 0.0
  {
    var d := Dot(norm, LightDirection);
    if d > 0.0 {
      assert d * intensity > 0.0;
    } else if d < 0.0 {
      assert d * intensity < 0.0;
    } else {
      assert d * intensity == 0.0;
    }
  }

  /** A sample whose normal does not face the light is drawn as the blank
      background glyph, whatever its depth. */
  lemma FacingAwayIsBlank(norm: Point, intensity: real, d: Depth)
    requires intensity >= 0.0 && Dot(norm, LightDirection) <= 0.0
    ensures ToChar(Pixel(Illumination(norm, intensity), d)) == ' '
  {
    assert Dot(norm, LightDirection) * intensity <= 0.0;
  }

  /** True when sample `s` projects to pixel `(c, r)`. */
  predicate Lands(s: Sample, c: int, r: int)
  {
    s.cx == c && s.cy == r
  }

  /** The grid after plotting the samples `ss` in order. */
  function PlotAll(g: seq<seq<Pixel>>, w: nat, h: nat, sphere: Sphere, intensity: real, ss: seq<Sample>): (g': seq<seq<Pixel>>)
    requires Shaped(g, w, h)
    ensures Shaped(g', w, h)
    decreases |ss|
  {
    if ss == [] then g
    else
      var s := ss[|ss| - 1];
      Plotted(PlotAll(g, w, h, sphere, intensity, ss[..|ss| - 1]), w, h,
              s.cx, s.cy, SampleDepth(sphere, s), Illumination(s.norm, intensity))
  }

  /** Sample `k` of `ss` is the first sample landing on `(c, r)` that is
      strictly nearer than `before` and nearer than every earlier sample
      landing there, and `after` is the pixel it writes. */
  ghost predicate WrittenBy(before: Pixel, after: Pixel, sphere: Sphere, intensity: real,
                            ss: seq<Sample>, c: int, r: int, k: int)
    requires 0 <= k < |ss|
  {
    var z := SampleDepth(sphere, ss[k]);
    && Lands(ss[k], c, r)
    && Nearer(z, before.z)
    && after == Pixel(Illumination(ss[k].norm, intensity), Finite(z))
    && forall j :: 0 <= j < k && Lands(ss[j], c, r) ==> z < SampleDepth(sphere, ss[j])
  }

  /** The nearest-sample-wins rule for one pixel, which held `before` and
      holds `after` once the samples `ss` are plotted: no sample landing on
      it is strictly nearer than what it holds, and it either kept its old
      value or holds the first sample to reach the nearest depth. */
  ghost predicate NearestWins(before: Pixel, after: Pixel, sphere: Sphere, intensity: real,
                              ss: seq<Sample>, c: int, r: int)
  {
    && (forall k :: 0 <= k < |ss| && Lands(ss[k], c, r) ==> !Nearer(SampleDepth(sphere, ss[k]), after.z))
    && (after == before || exists k :: 0 <= k < |ss| && WrittenBy(before, after, sphere, intensity, ss, c, r, k))
  }

  /** Plotting one more sample keeps the nearest-sample-wins rule. */
  lemma NearestWinsStep(g0: seq<seq<Pixel>>, g: seq<seq<Pixel>>, w: nat, h: nat, sphere: Sphere,
                        intensity: real, ss: seq<Sample>, s: Sample, c: nat, r: nat)
    requires Shaped(g0, w, h) && Shaped(g, w, h) && c < w && r < h
    requires NearestWins(g0[r][c], g[r][c], sphere, intensity, ss, c, r)
    ensures NearestWins(g0[r][c], Plotted(g, w, h, s.cx, s.cy, SampleDepth(sphere, s), Illumination(s.norm, intensity))[r][c],
                        sphere, intensity, ss + [s], c, r)
  {
    var z := SampleDepth(sphere, s);
    var g' := Plotted(g, w, h, s.cx, s.cy, z, Illumination(s.norm, intensity));
    var ss' := ss + [s];
    assert forall k :: 0 <= k < |ss| ==> ss'[k] == ss[k];
    if Lands(s, c, r) && Nearer(z, g[r][c].z) {
      // The new sample wins: every earlier sample landing here lies no
      // nearer than the old value, which lies strictly behind `z`.
      assert g'[r][c] == Pixel(Illumination(s.norm, intensity), Finite(z));
      assert Nearer(z, g0[r][c].z) by {
        if g[r][c] != g0[r][c] {
          var k :| 0 <= k < |ss| && WrittenBy(g0[r][c], g[r][c], sphere, intensity, ss, c, r, k);
        }
      }
      assert WrittenBy(g0[r][c], g'[r][c], sphere, intensity, ss', c, r, |ss|);
    } else {
      assert g'[r][c] == g[r][c];
      if g[r][c] != g0[r][c] {
        var k :| 0 <= k < |ss| && WrittenBy(g0[r][c], g[r][c], sphere, intensity, ss, c, r, k);
        assert WrittenBy(g0[r][c], g'[r][c], sphere, intensity, ss', c, r, k);
      }
    }
  }

  /** After plotting any sequence of samples, every pixel obeys the
      nearest-sample-wins rule with respect to what it held before. */
  lemma {:induction false} PlotAllNearestWins(g: seq<seq<Pixel>>, w: nat, h: nat, sphere: Sphere,
                                              intensity: real, ss: seq<Sample>)
    requires Shaped(g, w, h)
    ensures forall r, c :: 0 <= r < h && 0 <= c < w ==>
              NearestWins(g[r][c], PlotAll(g, w, h, sphere, intensity, ss)[r][c], sphere, intensity, ss, c, r)
  {
    if ss != [] {
      var init := ss[..|ss| - 1];
      var s := ss[|ss| - 1];
      PlotAllNearestWins(g, w, h, sphere, intensity, init);
      assert init + [s] == ss;
      forall r, c | 0 <= r < h && 0 <= c < w
        ensures NearestWins(g[r][c], PlotAll(g, w, h, sphere, intensity, ss)[r][c], sphere, intensity, ss, c, r)
      {
        NearestWinsStep(g, PlotAll(g, w, h, sphere, intensity, init), w, h, sphere, intensity, init, s, c, r);
      }
    }
  }

  /** Samples that land outside the canvas leave it unchanged. */
  lemma {:induction false} OffCanvasSamplesIgnored(g: seq<seq<Pixel>>, w: nat, h: nat, sphere: Sphere,
                                                   intensity: real, ss: seq<Sample>)
    requires Shaped(g, w, h)
    requires forall k :: 0 <= k < |ss| ==> !InBounds(ss[k].cx, ss[k].cy, w, h)
    ensures PlotAll(g, w, h, sphere, intensity, ss) == g
  {
    if ss != [] {
      OffCanvasSamplesIgnored(g, w, h, sphere, intensity, ss[..|ss| - 1]);
    }
  }

  /** On a fresh canvas, a pixel some sample lands on holds the light of the
      first of the nearest samples landing there, and an untouched pixel
      stays blank. */
  lemma FreshCanvasPixels(w: nat, h: nat, sphere: Sphere, intensity: real, ss: seq<Sample>, c: nat, r: nat)
    requires c < w && r < h
    ensures var p := PlotAll(Blank(w, h), w, h, sphere, intensity, ss)[r][c];
            (p == Untouched <==> forall k :: 0 <= k < |ss| ==> !Lands(ss[k], c, r))
    ensures var p := PlotAll(Blank(w, h), w, h, sphere, intensity, ss)[r][c];
            forall k :: 0 <= k < |ss| && Lands(ss[k], c, r) ==> !Nearer(SampleDepth(sphere, ss[k]), p.z)
    ensures var p := PlotAll(Blank(w, h), w, h, sphere, intensity, ss)[r][c];
            p != Untouched ==> exists k :: 0 <= k < |ss| && WrittenBy(Untouched, p, sphere, intensity, ss, c, r, k)
  {
    PlotAllNearestWins(Blank(w, h), w, h, sphere, intensity, ss);
    var p := PlotAll(Blank(w, h), w, h, sphere, intensity, ss)[r][c];
    assert NearestWins(Untouched, p, sphere, intensity, ss, c, r);
    if p != Untouched {
      var k :| 0 <= k < |ss| && WrittenBy(Untouched, p, sphere, intensity, ss, c, r, k);
    }
  }

  /** Rasterises the samples of `sphere` into `canvas`, in order: for each
      sample the world point `pos + norm` gives the depth, and the normal
      the light, and the canvas performs a depth-tested plot. */
  method SphereLight(sphere: Sphere, canvas: Canvas, samples: seq<Sample>)
    requires canvas.Valid()
    modifies canvas`pixels
    ensures canvas.Valid()
    ensures canvas.pixels == PlotAll(old(canvas.pixels), canvas.width, canvas.height, sphere, canvas.light, samples)
    ensures forall r, c :: 0 <= r < canvas.height && 0 <= c < canvas.width ==>
              NearestWins(old(canvas.pixels)[r][c], canvas.pixels[r][c], sphere, canvas.light, samples, c, r)
  {
    ghost var g0 := canvas.pixels;
    for i := 0 to |samples|
      invariant canvas.Valid()
      invariant canvas.pixels == PlotAll(g0, canvas.width, canvas.height, sphere, canvas.light, samples[..i])
      invariant forall r, c :: 0 <= r < canvas.height && 0 <= c < canvas.width ==>
                  NearestWins(g0[r][c], canvas.pixels[r][c], sphere, canvas.light, samples[..i], c, r)
    {
      var s := samples[i];
      var p := Add(sphere.pos, s.norm);
      ghost var before := canvas.pixels;
      canvas.Plot(s.cx, s.cy, p.z, Illumination(s.norm, canvas.light));
      assert samples[..i + 1] == samples[..i] + [s];
      forall r, c | 0 <= r < canvas.height && 0 <= c < canvas.width
        ensures NearestWins(g0[r][c], canvas.pixels[r][c], sphere, canvas.light, samples[..i + 1], c, r)
      {
        NearestWinsStep(g0, before, canvas.width, canvas.height, sphere, canvas.light, samples[..i], s, c, r);
      }
    }
    assert samples[..|samples|] == samples;
  }
}
