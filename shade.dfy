/** Pixels of the depth-buffered canvas and the shade mapper that turns a
    pixel's light value into one character of a 70-glyph ASCII ramp. */
module Shade {

  /** Distance of the nearest sample seen at a pixel. `Far` stands for the
      "infinitely far" initial depth, which every real depth beats. */
  datatype Depth = Far | Finite(z: real)

  /** One canvas cell: the light of the nearest sample and its depth. */
  datatype Pixel = Pixel(light: real, z: Depth)

  /** True when a sample at depth `z` lies strictly nearer than `d`. */
  predicate Nearer(z: real, d: Depth)
  {
    d.Far? || z < d.z
  }

  /** The glyphs in the order the source text lists them, brightest first. */
  const Glyphs: string :=
    "$@B%8&WM#*" + "oahkbdpqwm" + "ZO0QLCJUYX" + "zcvunxrjft" +
    "/\\|()1{}[]" + "?-_+~<>i!l" + "I;:,\"^`'. "

  /** The reversal of a sequence. */
  function Reverse<T>(s: seq<T>): seq<T>
  {
    seq(|s|, i requires 0 <= i < |s| => s[|s| - 1 - i])
  }

  /** The shading ramp as used: the glyphs reversed, so index 0 is the
      background space and index 69 the densest glyph. */
  const Ramp: string := Reverse(Glyphs)

  /** Number of glyphs in the ramp. */
  const RampLength: nat := 70

  /** The ramp has 70 glyphs, starts with the space, ends with '$', and no
      glyph is a line break. */
  lemma RampFacts()
    ensures |Ramp| == RampLength
    ensures Ramp[0] == ' ' && Ramp[1] == '.' && Ramp[RampLength - 1] == '$'
    ensures forall i :: 0 <= i < |Ramp| ==> Ramp[i] != '\n'
  {
    GlyphsHaveNoLineBreak();
    ReverseOmits(Glyphs, '\n');
  }

  /** Reversing a sequence brings in no new element. */
  lemma ReverseOmits<T>(s: seq<T>, x: T)
    requires x !in s
    ensures forall i :: 0 <= i < |s| ==> Reverse(s)[i] != x
  {
    forall i | 0 <= i < |s| ensures Reverse(s)[i] != x {
      assert Reverse(s)[i] == s[|s| - 1 - i];
    }
  }

  lemma GlyphsHaveNoLineBreak()
    ensures '\n' !in Glyphs
  {
  }

  /** Rounding to the nearest integer, halfway cases away from zero, as
      Rust's `f64::round` does. */
  function Round(x: real): (r: int)
    ensures x - 0.5 <= r as real <= x + 0.5
    ensures (r as real == x + 0.5 ==> x > 0.0) && (r as real == x - 0.5 ==> x < 0.0)
  {
    if x >= 0.0 then (x + 0.5).Floor else -((-x + 0.5).Floor)
  }

  /** Rounding is monotone. */
  lemma RoundMonotone(x: real, y: real)
    requires x <= y
    ensures Round(x) <= Round(y)
  {
    if x >= 0.0 {
      assert (x + 0.5).Floor <= (y + 0.5).Floor;
    } else if y >= 0.0 {
      assert Round(x) <= 0 <= Round(y);
    } else {
      assert (-y + 0.5).Floor <= (-x + 0.5).Floor;
    }
  }

  /** The ramp index for a light value: `light * 70`, clamped below at 0,
      rounded, and clamped above at 69. */
  function ShadeIndex(light: real): (k: nat)
    ensures k < RampLength
    ensures light <= 0.0 ==> k == 0
    ensures k == RampLength - 1 <==> light * 70.0 >= 68.5
    ensures 0.0 < light && light * 70.0 < 68.5 ==> k as real - 0.5 <= light * 70.0 < k as real + 0.5
  {
    var scaled := light * (RampLength as real);
    var clamped := if scaled > 0.0 then scaled else 0.0;
    var rounded := Round(clamped);
    if rounded < RampLength - 1 then rounded else RampLength - 1
  }

  /** The shade index never decreases as the light grows. */
  lemma ShadeIndexMonotone(l1: real, l2: real)
    requires l1 <= l2
    ensures ShadeIndex(l1) <= ShadeIndex(l2)
  {
    var s1 := if l1 * 70.0 > 0.0 then l1 * 70.0 else 0.0;
    var s2 := if l2 * 70.0 > 0.0 then l2 * 70.0 else 0.0;
    assert l1 * 70.0 <= l2 * 70.0;
    RoundMonotone(s1, s2);
  }

  /** The character a pixel is shown as. */
  function ToChar(p: Pixel): (c: char)
    ensures c != '\n'
    ensures p.light <= 0.0 ==> c == ' '
  {
    RampFacts();
    PickIsIndex(Ramp, ShadeIndex(p.light));
    Pick(Ramp, ShadeIndex(p.light))
  }

  /** Element `k` of `s`, found by walking down the sequence; callers learn
      that it is `s[k]` from `PickIsIndex`. */
  function Pick(s: string, k: nat): char
    requires k < |s|
  {
    if k == 0 then s[0] else Pick(s[1..], k - 1)
  }

  /** `Pick` selects element `k`. */
  lemma {:induction false} PickIsIndex(s: string, k: nat)
    requires k < |s|
    ensures Pick(s, k) == s[k]
  {
    if k > 0 {
      PickIsIndex(s[1..], k - 1);
    }
  }

  /** A brighter pixel never shows a ramp glyph of lower index. */
  lemma ToCharMonotone(p: Pixel, q: Pixel)
    requires p.light <= q.light
    ensures |Ramp| == RampLength
    ensures ToChar(p) == Ramp[ShadeIndex(p.light)] && ToChar(q) == Ramp[ShadeIndex(q.light)]
    ensures ShadeIndex(p.light) <= ShadeIndex(q.light)
  {
    RampFacts();
    PickIsIndex(Ramp, ShadeIndex(p.light));
    PickIsIndex(Ramp, ShadeIndex(q.light));
    ShadeIndexMonotone(p.light, q.light);
  }
}
