/** Where generateDepthPixels puts each coloured sample in the RGBA back
    buffer (ofxOpenNI.cpp:369-515). Row `y` of the frame starts at pixel
    `y * XRes + XOffset`, so the whole frame is one contiguous run of
    `XRes * YRes` pixels starting at pixel `YOffset * XRes + XOffset`, filled
    with the samples in row-major order. */
module DepthFrame {
  import opened Types
  import DepthColoring
  import Arithmetic

  /** The depth metadata of the last frame read: frame number, resolution,
      offset, and the samples in row-major order. */
  datatype DepthMeta = DepthMeta(frameId: nat, xRes: nat, yRes: nat, xOffset: nat, yOffset: nat, data: seq<U16>)

  /** Number of samples the loops consume. */
  function SampleCount(md: DepthMeta): nat {
    md.xRes * md.yRes
  }

  /** Byte offset of the first pixel written. */
  function FirstByte(md: DepthMeta): nat {
    (md.yOffset * md.xRes + md.xOffset) * 4
  }

  /** Byte offset of pixel `x` of row `y`, as the loops compute it. */
  function PixelOffset(md: DepthMeta, y: nat, x: nat): nat {
    y * md.xRes * 4 + md.xOffset * 4 + 4 * x
  }

  /** What the loops need to stay defined: the 16-bit counters `x` and `y`
      reach their bounds without wrapping, the metadata holds every sample
      read, and every byte written lies inside the buffer. */
  predicate Fits(md: DepthMeta, len: nat) {
    md.xRes < 0x1_0000 && md.yOffset + md.yRes < 0x1_0000 &&
    SampleCount(md) <= |md.data| &&
    FirstByte(md) + 4 * SampleCount(md) <= len
  }

  /** The frame can be drawn with style `st` into a buffer of `len` bytes. */
  predicate Drawable(md: DepthMeta, st: DepthColoring.Style, len: nat) {
    Fits(md, len) && st.pal.Valid() && (SampleCount(md) > 0 ==> st.Defined())
  }

  /** The coloured run of the first `n` samples: four bytes per sample, in
      sample order. */
  function Run(data: seq<U16>, n: nat, st: DepthColoring.Style): (run: seq<Byte>)
    requires n <= |data| && (n > 0 ==> st.Defined())
    ensures |run| == 4 * n
  {
    seq(4 * n, off requires 0 <= off < 4 * n =>
      DepthColoring.ColorDepth(data[off / 4], st).Channel(off % 4))
  }

  /** `buf` with the bytes from `first` on replaced by `run`. */
  function Overlay(buf: seq<Byte>, first: nat, run: seq<Byte>): (out: seq<Byte>)
    requires first + |run| <= |buf|
    ensures |out| == |buf|
  {
    seq(|buf|, k requires 0 <= k < |buf| =>
      if first <= k < first + |run| then run[k - first] else buf[k])
  }

  /** The back buffer after the frame is drawn into `buf`. */
  function Render(buf: seq<Byte>, md: DepthMeta, st: DepthColoring.Style): (out: seq<Byte>)
    requires Drawable(md, st, |buf|)
    ensures |out| == |buf|
  {
    Overlay(buf, FirstByte(md), Run(md.data, SampleCount(md), st))
  }

  /** Rows are laid out back to back: the pixel after the last one of row
      `y` is the first one of row `y + 1`, and row `y` holds samples
      `(y - YOffset) * XRes` onwards. */
  lemma {:induction false} RowStart(md: DepthMeta, y: nat)
    requires md.yOffset <= y
    ensures PixelOffset(md, y, 0) == FirstByte(md) + 4 * ((y - md.yOffset) * md.xRes)
    ensures PixelOffset(md, y, md.xRes) == PixelOffset(md, y + 1, 0)
    ensures (y - md.yOffset) * md.xRes + md.xRes == (y + 1 - md.yOffset) * md.xRes
  {
    var row := y - md.yOffset;
    calc {
      y * md.xRes;
      (md.yOffset + row) * md.xRes;
      md.yOffset * md.xRes + row * md.xRes;
    }
    calc {
      (y + 1) * md.xRes;
      y * md.xRes + md.xRes;
    }
    calc {
      (row + 1) * md.xRes;
      row * md.xRes + md.xRes;
    }
  }

  /** No row of the frame reads past the last sample. */
  lemma {:induction false} RowWithinFrame(md: DepthMeta, y: nat)
    requires md.yOffset <= y < md.yOffset + md.yRes
    ensures (y + 1 - md.yOffset) * md.xRes <= SampleCount(md)
  {
    var row := y - md.yOffset;
    assert row + 1 <= md.yRes;
    calc {
      (row + 1) * md.xRes;
      <= { Arithmetic.MulMonotone(row + 1, md.yRes, md.xRes); }
      md.yRes * md.xRes;
      md.xRes * md.yRes;
    }
  }

  /** Channel `c` of sample `s` is byte `4 * s + c` of the run. */
  lemma RunAt(data: seq<U16>, n: nat, st: DepthColoring.Style, s: nat, c: nat)
    requires n <= |data| && (n > 0 ==> st.Defined())
    requires s < n && c < 4
    ensures Run(data, n, st)[4 * s + c] == DepthColoring.ColorDepth(data[s], st).Channel(c)
  {
    assert (4 * s + c) / 4 == s && (4 * s + c) % 4 == c;
  }

  /** The four bytes of sample `s` in the run are its pixel's channels. */
  lemma RunPixel(data: seq<U16>, n: nat, st: DepthColoring.Style, s: nat)
    requires n <= |data| && (n > 0 ==> st.Defined())
    requires s < n
    ensures forall c :: 0 <= c < 4 ==>
      Run(data, n, st)[4 * s + c] == DepthColoring.ColorDepth(data[s], st).Channel(c)
  {
    forall c | 0 <= c < 4
      ensures Run(data, n, st)[4 * s + c] == DepthColoring.ColorDepth(data[s], st).Channel(c)
    {
      RunAt(data, n, st, s, c);
    }
  }

  /** Sample `s` of the frame lands at pixel `s` of the run. */
  lemma RenderedSample(buf: seq<Byte>, md: DepthMeta, st: DepthColoring.Style, s: nat, c: nat)
    requires Drawable(md, st, |buf|)
    requires s < SampleCount(md) && c < 4
    ensures FirstByte(md) + 4 * s + c < |buf|
    ensures Render(buf, md, st)[FirstByte(md) + 4 * s + c] == DepthColoring.ColorDepth(md.data[s], st).Channel(c)
  {
    RunAt(md.data, SampleCount(md), st, s, c);
  }

  /** Pixel `x` of row `y` is pixel `(y - YOffset) * XRes + x` of the run:
      the frame is consumed in row-major order, and with RenderedSample,
      bytes `PixelOffset(md, y, x)` to `+ 3` of the drawn buffer hold the
      colour of that sample. */
  lemma {:induction false} PixelIndex(md: DepthMeta, y: nat, x: nat)
    requires md.yOffset <= y < md.yOffset + md.yRes && x < md.xRes
    ensures (y - md.yOffset) * md.xRes + x < SampleCount(md)
    ensures PixelOffset(md, y, x) == FirstByte(md) + 4 * ((y - md.yOffset) * md.xRes + x)
  {
    RowStart(md, y);
    RowWithinFrame(md, y);
  }

  /** `cur` is `before` with the first `count` samples of the frame drawn. */
  ghost predicate Drawn(cur: seq<Byte>, before: seq<Byte>, md: DepthMeta, st: DepthColoring.Style, count: nat)
    requires Drawable(md, st, |before|)
  {
    |cur| == |before| && count <= SampleCount(md) &&
    forall k :: 0 <= k < |cur| ==>
      cur[k] == if FirstByte(md) <= k < FirstByte(md) + 4 * count
        then Run(md.data, SampleCount(md), st)[k - FirstByte(md)] else before[k]
  }

  /** Storing the pixel of sample `count` at its four bytes draws one more sample. */
  lemma DrawnStep(cur: seq<Byte>, next: seq<Byte>, before: seq<Byte>, md: DepthMeta, st: DepthColoring.Style, count: nat)
    requires Drawable(md, st, |before|) && count < SampleCount(md)
    requires Drawn(cur, before, md, st, count)
    requires |next| == |cur|
    requires forall k :: 0 <= k < |next| ==>
      next[k] == if FirstByte(md) + 4 * count <= k < FirstByte(md) + 4 * count + 4
        then DepthColoring.ColorDepth(md.data[count], st).Channel(k - FirstByte(md) - 4 * count) else cur[k]
    ensures Drawn(next, before, md, st, count + 1)
  {
    RunPixel(md.data, SampleCount(md), st, count);
  }

  /** Once every sample is drawn the buffer is the rendered one. */
  lemma DrawnIsRender(cur: seq<Byte>, before: seq<Byte>, md: DepthMeta, st: DepthColoring.Style)
    requires Drawable(md, st, |before|)
    requires Drawn(cur, before, md, st, SampleCount(md))
    ensures cur == Render(before, md, st)
  {
  }

  /** Bytes outside the run of the frame keep their old value. */
  lemma RenderKeepsOutside(buf: seq<Byte>, md: DepthMeta, st: DepthColoring.Style, k: nat)
    requires Drawable(md, st, |buf|) && k < |buf|
    requires k < FirstByte(md) || FirstByte(md) + 4 * SampleCount(md) <= k
    ensures Render(buf, md, st)[k] == buf[k]
  {
  }

  /** A pixel whose sample is zero ("no data") is drawn fully transparent in
      every colouring mode; any other pixel is opaque except in
      PSYCHEDELIC_SHADES. */
  lemma RenderedAlpha(buf: seq<Byte>, md: DepthMeta, st: DepthColoring.Style, s: nat)
    requires Drawable(md, st, |buf|)
    requires s < SampleCount(md)
    ensures FirstByte(md) + 4 * s + 3 < |buf|
    ensures var alpha := Render(buf, md, st)[FirstByte(md) + 4 * s + 3];
      && (md.data[s] == 0 ==> alpha == 0)
      && (md.data[s] != 0 && st.mode != DepthColoring.PsychedelicShades ==> alpha == 255)
      && (md.data[s] != 0 && st.mode == DepthColoring.PsychedelicShades ==> alpha == st.fl.shadeAlpha(md.data[s] % 10))
  {
    RenderedSample(buf, md, st, s, 3);
  }
}
