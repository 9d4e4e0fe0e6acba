/** The per-sample depth colouring of generateDepthPixels: a raw 16-bit depth
    sample, the selected colouring mode and the device's maximum depth give one
    RGBA pixel (ofxOpenNI.cpp:382-511). */
module DepthColoring {
  import opened Types
  import RainbowPalette
  import opened Arithmetic

  /** The colouring modes, in the order of the `switch`. */
  datatype Coloring =
    | PsychedelicShades
    | Psychedelic
    | Rainbow
    | CyclicRainbow
    | Blues
    | Grey
    | Status

  /** The results of the floating-point expressions, left abstract:
      `shadeAlpha(k)` is 255 scaled by k/20 + 0.5 for the last decimal digit k
      of the sample, `bluesIndex(d)` and `greyLevel(d)` are d divided by the
      float max_depth/766 and max_depth/255, after the integer casts. */
  datatype FloatRamps = FloatRamps(shadeAlpha: int -> Byte, bluesIndex: U16 -> U16, greyLevel: U16 -> Byte)

  /** Everything besides the sample that decides its colour. */
  datatype Style = Style(mode: Coloring, maxDepth: U16, pal: RainbowPalette.Tables, fl: FloatRamps) {

    /** The palette has its 256 entries, and RAINBOW does not divide by
        zero (`max_depth / 256` is 0 when max_depth < 256). */
    predicate Defined() {
      pal.Valid() && (mode == Rainbow ==> maxDepth >= 256)
    }
  }

  /** The outcome of the RAINBOW index computation as the source writes it. */
  datatype IndexResult =
    | InRange(index: nat)
    | DivisionByZero
    | Overrun(index: nat)

  /** RAINBOW palette index as written: `d / (max_depth / 256)`, used to
      index the 256-entry tables without a bounds check. */
  function RainbowIndex(d: U16, maxDepth: U16): (r: IndexResult)
    ensures r.DivisionByZero? <==> maxDepth < 256
    ensures r.InRange? <==> maxDepth >= 256 && d / (maxDepth / 256) < RainbowPalette.Size
    ensures r.InRange? ==> r.index < RainbowPalette.Size
    ensures !r.DivisionByZero? ==>
      r.index * (maxDepth / 256) <= d < (r.index + 1) * (maxDepth / 256)
  {
    if maxDepth < 256 then DivisionByZero
    else
      var step := maxDepth / 256;
      var i := d / step;
      DivisionBounds(d, step);
      if i < RainbowPalette.Size then InRange(i) else Overrun(i)
  }

  /** For every maximum depth that does not divide by zero, a sample equal to
      the maximum depth indexes past the end of the palette. */
  lemma {:induction false} RainbowOverrunsAtMaxDepth(maxDepth: U16)
    requires maxDepth >= 256
    ensures RainbowIndex(maxDepth, maxDepth).Overrun?
    ensures RainbowIndex(maxDepth, maxDepth).index >= RainbowPalette.Size
  {
    var step := maxDepth / 256;
    var i := maxDepth / step;
    DivisionBounds(maxDepth, 256);
    DivisionBounds(maxDepth, step);
    if i < 256 {
      MulMonotone(i + 1, 256, step);
      assert false;
    }
  }

  /** The concrete case: with a maximum depth of 10000 the step is 39 and a
      sample of 10000 asks for entry 256. */
  lemma RainbowOverrunExample()
    ensures RainbowIndex(10000, 10000) == Overrun(256)
    ensures RainbowIndex(9983, 10000) == InRange(255)
  {
  }

  /** RAINBOW palette index with the overrun clamped to the last entry. */
  function ClampedRainbowIndex(d: U16, maxDepth: U16): (i: nat)
    requires maxDepth >= 256
    ensures i < RainbowPalette.Size
    ensures RainbowIndex(d, maxDepth).InRange? ==> i == RainbowIndex(d, maxDepth).index
    ensures RainbowIndex(d, maxDepth).Overrun? ==> i == RainbowPalette.Size - 1
  {
    var i := d / (maxDepth / 256);
    if i < RainbowPalette.Size then i else RainbowPalette.Size - 1
  }

  /** The clamped index never decreases as the depth grows. */
  lemma {:induction false} ClampedRainbowIndexMonotone(d1: U16, d2: U16, maxDepth: U16)
    requires maxDepth >= 256 && d1 <= d2
    ensures ClampedRainbowIndex(d1, maxDepth) <= ClampedRainbowIndex(d2, maxDepth)
  {
    var step := maxDepth / 256;
    DivisionBounds(d1, step);
    DivisionBounds(d2, step);
    if d1 / step > d2 / step {
      MulMonotone(d2 / step + 1, d1 / step, step);
      assert false;
    }
  }

  /** Samples closer than one step of the ramp map to the first entry. */
  lemma RainbowNearestBucket(d: U16, maxDepth: U16)
    requires maxDepth >= 256 && d < maxDepth / 256
    ensures RainbowIndex(d, maxDepth) == InRange(0)
  {
  }

  /** The PSYCHEDELIC colour of one of the ten buckets. */
  function PsychedelicHue(bucket: int): (c: Rgb)
    requires 0 <= bucket < 10
    ensures c != Black
    ensures c.r in {0, 127, 255} && c.g in {0, 127, 255} && c.b in {0, 127, 255}
  {
    match bucket
    case 0 => Rgb(255, 0, 0)
    case 1 => Rgb(0, 255, 0)
    case 2 => Rgb(0, 0, 255)
    case 3 => Rgb(255, 255, 0)
    case 4 => Rgb(0, 255, 255)
    case 5 => Rgb(255, 0, 255)
    case 6 => Rgb(255, 255, 255)
    case 7 => Rgb(127, 0, 255)
    case 8 => Rgb(255, 0, 127)
    case _ => Rgb(127, 255, 0)
  }

  /** The ten PSYCHEDELIC buckets have ten different colours. */
  lemma PsychedelicHuesDistinct(a: int, b: int)
    requires 0 <= a < 10 && 0 <= b < 10 && a != b
    ensures PsychedelicHue(a) != PsychedelicHue(b)
  {
  }

  /** The BLUES ramp on the (float-computed) index: black to blue, blue to
      cyan, cyan to white, then white. The `+ 1` is stored into an 8-bit
      channel, so a value of 256 wraps to 0. */
  function BluesColor(colIndex: U16): (c: Rgb)
    ensures colIndex < 256 ==> c == Rgb(0, 0, colIndex)
    ensures colIndex >= 256 ==> c.b == 255
    ensures colIndex >= 256 + 255 ==> c.g == 255
    ensures colIndex >= 256 + 255 + 255 ==> c == Rgb(255, 255, 255)
  {
    if colIndex < 256 then Rgb(0, 0, colIndex)
    else if colIndex < 256 + 255 then Rgb(0, (colIndex % 256 + 1) % 256, 255)
    else if colIndex < 256 + 255 + 255 then Rgb((colIndex % 256 + 1) % 256, 255, 255)
    else Rgb(255, 255, 255)
  }

  function Brightness(c: Rgb): nat {
    c.r + c.g + c.b
  }

  /** The BLUES ramp never gets darker as its index grows (the 8-bit wrap
      at 511 gives 0 where 1 was meant, which still keeps the order). */
  lemma BluesMonotone(i: U16, j: U16)
    requires i <= j
    ensures Brightness(BluesColor(i)) <= Brightness(BluesColor(j))
  {
  }

  /** Index 511 is the one place where the 8-bit store wraps. */
  lemma BluesWrapAt511()
    ensures BluesColor(510) == BluesColor(511) == Rgb(0, 255, 255)
    ensures BluesColor(512) == Rgb(1, 255, 255)
  {
  }

  /** The RGB part chosen by the `switch`. COLORING_STATUS has its body
      compiled out and leaves the initial zeros. */
  function Hue(d: U16, st: Style): Rgb
    requires st.Defined()
  {
    match st.mode
    case PsychedelicShades => PsychedelicHue((d / 10) % 10)
    case Psychedelic => PsychedelicHue((d / 10) % 10)
    case Rainbow => st.pal.At(ClampedRainbowIndex(d, st.maxDepth))
    case CyclicRainbow => st.pal.At(d % 256)
    case Blues => BluesColor(st.fl.bluesIndex(d))
    case Grey => var a := st.fl.greyLevel(d); Rgb(a, a, a)
    case Status => Black
  }

  /** The alpha value before the zero test: 255, scaled in
      PSYCHEDELIC_SHADES by the last decimal digit of the sample. */
  function Opacity(d: U16, st: Style): Byte {
    if st.mode == PsychedelicShades then st.fl.shadeAlpha(d % 10) else 255
  }

  /** The pixel written for sample `d`. */
  function ColorDepth(d: U16, st: Style): (px: Rgba)
    requires st.Defined()
    ensures d == 0 ==> px.a == 0
    ensures d != 0 && st.mode != PsychedelicShades ==> px.a == 255
    ensures d != 0 && st.mode == PsychedelicShades ==> px.a == st.fl.shadeAlpha(d % 10)
    ensures st.mode == Status ==> px.Color() == Black
    ensures st.mode == CyclicRainbow ==> px.Color() == st.pal.At(d % 256)
    ensures st.mode == Rainbow && RainbowIndex(d, st.maxDepth).InRange? ==>
      px.Color() == st.pal.At(RainbowIndex(d, st.maxDepth).index)
    ensures st.mode == Blues ==> px.Color() == BluesColor(st.fl.bluesIndex(d))
    ensures st.mode == Grey ==> px.Color() == Rgb(st.fl.greyLevel(d), st.fl.greyLevel(d), st.fl.greyLevel(d))
  {
    var c := Hue(d, st);
    Rgba(c.r, c.g, c.b, if d == 0 then 0 else Opacity(d, st))
  }

  /** PSYCHEDELIC and PSYCHEDELIC_SHADES colour a sample through the
      ten-entry table by `(d / 10) % 10` alone. */
  lemma PsychedelicByBucket(d1: U16, d2: U16, st: Style)
    requires st.Defined() && st.mode in {Psychedelic, PsychedelicShades}
    requires (d1 / 10) % 10 == (d2 / 10) % 10
    ensures ColorDepth(d1, st).Color() == ColorDepth(d2, st).Color() == PsychedelicHue((d1 / 10) % 10)
  {
  }

  /** PSYCHEDELIC_SHADES falls through to PSYCHEDELIC: the same RGB, only
      the alpha of a non-zero sample differs. */
  lemma ShadesFallThrough(d: U16, st: Style)
    requires st.Defined() && st.mode == Psychedelic
    ensures var shades := st.(mode := PsychedelicShades);
      && ColorDepth(d, shades).Color() == ColorDepth(d, st).Color()
      && (d == 0 ==> ColorDepth(d, shades) == ColorDepth(d, st))
      && (d != 0 ==> ColorDepth(d, shades).a == st.fl.shadeAlpha(d % 10))
  {
  }
}
