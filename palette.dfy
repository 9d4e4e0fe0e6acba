/** The rainbow palette: three 256-entry byte tables (red, green, blue) that
    start out all zero and are filled once, for indices 1 to 254, from a
    five-segment colour ramp (ofxOpenNI.cpp, CreateRainbowPallet). */
module RainbowPalette {
  import opened Types

  /** Number of entries in each table. */
  const Size := 256

  /** The value the floating-point ramp expression of index `i` yields once
      cast to `unsigned char`. Which expression applies depends on the segment
      of `i`; the value itself is left abstract, bounded only by the byte range. */
  type Ramp = int -> Byte

  /** The three tables as values. */
  datatype Tables = Tables(r: seq<Byte>, g: seq<Byte>, b: seq<Byte>) {

    predicate Valid() {
      |r| == Size && |g| == Size && |b| == Size
    }

    /** The colour stored at index `i`. */
    function At(i: int): Rgb
      requires Valid() && 0 <= i < Size
    {
      Rgb(r[i], g[i], b[i])
    }
  }

  /** The tables before initialisation: zero-initialised static storage. */
  function Zeros(): (t: Tables)
    ensures t.Valid()
  {
    var z := seq(Size, i => 0);
    Tables(z, z, z)
  }

  /** The colour the initialisation loop writes at index `i`, 1 <= i <= 254.
      In each segment two channels are constants and one follows the ramp. */
  function RampColor(i: int, ramp: Ramp): Rgb
    requires 1 <= i < Size - 1
  {
    if i <= 29 then Rgb(ramp(i), 0, 255)
    else if i <= 86 then Rgb(0, ramp(i), 255)
    else if i <= 141 then Rgb(0, 255, ramp(i))
    else if i <= 199 then Rgb(ramp(i), 255, 0)
    else Rgb(255, ramp(i), 0)
  }

  /** Entry `i` of the initialised tables: indices 0 and 255 are never written
      and keep their zero, every other index holds its ramp colour. */
  function Entry(i: int, ramp: Ramp): Rgb
    requires 0 <= i < Size
  {
    if i == 0 || i == Size - 1 then Black else RampColor(i, ramp)
  }

  /** The three tables once the palette is built from `ramp`. */
  function Built(ramp: Ramp): (t: Tables)
    ensures t.Valid()
  {
    Tables(seq(Size, i requires 0 <= i < Size => Entry(i, ramp).r),
           seq(Size, i requires 0 <= i < Size => Entry(i, ramp).g),
           seq(Size, i requires 0 <= i < Size => Entry(i, ramp).b))
  }

  /** A fully saturated hue: some channel is at full intensity and some channel is off. */
  predicate Saturated(c: Rgb) {
    (c.r == 255 || c.g == 255 || c.b == 255) && (c.r == 0 || c.g == 0 || c.b == 0)
  }

  /** Whatever the ramp values, the built palette is black at both ends and a
      fully saturated hue everywhere in between. */
  lemma BuiltShape(ramp: Ramp, i: int)
    requires 0 <= i < Size
    ensures Built(ramp).At(i) == Entry(i, ramp)
    ensures i == 0 || i == Size - 1 ==> Built(ramp).At(i) == Black
    ensures 0 < i < Size - 1 ==> Saturated(Built(ramp).At(i))
  {
  }

  /** The channels fixed in each segment of the built palette. */
  lemma SegmentChannels(ramp: Ramp, i: int)
    requires 0 <= i < Size
    ensures var c := Built(ramp).At(i);
      && (1 <= i <= 29 ==> c.g == 0 && c.b == 255)
      && (30 <= i <= 86 ==> c.r == 0 && c.b == 255)
      && (87 <= i <= 141 ==> c.r == 0 && c.g == 255)
      && (142 <= i <= 199 ==> c.g == 255 && c.b == 0)
      && (200 <= i <= 254 ==> c.r == 255 && c.b == 0)
  {
  }

  /** The global palette storage: the three tables and the one-shot flag
      `rainbowPalletInit`. */
  class Pallet {
    var initialized: bool
    const red: array<Byte>
    const green: array<Byte>
    const blue: array<Byte>
    /** The ramp values the tables were built from, once they are built. */
    ghost var ramp: Ramp

    function Contents(): (t: Tables)
      reads this, red, green, blue
    {
      Tables(red[..], green[..], blue[..])
    }

    /** Three distinct 256-entry arrays. */
    predicate Sized()
      reads this
    {
      red.Length == Size && green.Length == Size && blue.Length == Size &&
      red != green && green != blue && red != blue
    }

    /** Before initialisation the tables are all zero, afterwards they hold
        the palette built from `ramp`. */
    ghost predicate Valid()
      reads this, red, green, blue
    {
      Sized() && Contents() == if initialized then Built(ramp) else Zeros()
    }

    /** Static initialisation: all three tables zero, flag clear. */
    constructor ()
      ensures Valid() && !initialized
      ensures fresh(red) && fresh(green) && fresh(blue)
      ensures Contents() == Zeros()
    {
      red := new Byte[Size](i => 0);
      green := new Byte[Size](i => 0);
      blue := new Byte[Size](i => 0);
      initialized := false;
      ramp := i => 0;
    }

    /** CreateRainbowPallet: a no-op once the flag is set; otherwise fills
        indices 1 to 254 of the three tables and sets the flag. */
    method Create(values: Ramp)
      requires Valid()
      modifies this, red, green, blue
      ensures Valid() && initialized
      ensures old(initialized) ==> Contents() == old(Contents()) && ramp == old(ramp)
      ensures !old(initialized) ==> Contents() == Built(values) && ramp == values
    {
      if initialized {
        return;
      }
      var i := 1;
      while i < Size - 1
        invariant 1 <= i <= Size - 1
        invariant forall j :: 0 <= j < Size ==>
          Rgb(red[j], green[j], blue[j]) == if 1 <= j < i then Entry(j, values) else Black
      {
        var r, g, b;
        if i <= 29 {
          r, g, b := values(i), 0, 255;
        } else if i <= 86 {
          r, g, b := 0, values(i), 255;
        } else if i <= 141 {
          r, g, b := 0, 255, values(i);
        } else if i <= 199 {
          r, g, b := values(i), 255, 0;
        } else {
          r, g, b := 255, values(i), 0;
        }
        red[i] := r;
        green[i] := g;
        blue[i] := b;
        i := i + 1;
      }
      initialized := true;
      ramp := values;
      assert red[..] == Built(values).r;
      assert green[..] == Built(values).g;
      assert blue[..] == Built(values).b;
    }
  }

  /** Calling CreateRainbowPallet a second time, with whatever ramp values,
      leaves the tables as the first call built them. */
  method CreateTwice(p: Pallet, first: Ramp, second: Ramp)
    requires p.Valid() && !p.initialized
    modifies p, p.red, p.green, p.blue
    ensures p.Valid() && p.Contents() == Built(first)
  {
    p.Create(first);
    p.Create(second);
  }
}
