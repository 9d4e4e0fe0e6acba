/** The ofxOpenNI adapter object: which streams are on, the double-buffered
    pixel storage, the acquisition step that draws a depth frame into the back
    buffer and swaps it to the front, and the per-frame update that hands the
    front buffer to the textures (ofxOpenNI.cpp). Each producer iteration and
    each update is modelled as one sequential step; the mutex is not. */
module Camera {
  import opened Types
  import RainbowPalette
  import DepthColoring
  import DepthFrame

  /** Pixel buffers are allocated at 640 x 480: four bytes per pixel for
      depth (RGBA), three for the image (RGB). */
  const DepthBufferBytes := 1228800
  const RgbBufferBytes := 921600

  /** Resolution reported by an image or IR generator's metadata. */
  datatype Resolution = Resolution(xRes: nat, yRes: nat)

  /** A stream kind in the size priority list: whether it is on, and its size. */
  datatype Stream = Stream(on: bool, size: nat)

  /** The size of the first stream that is on, or 0 when none is. */
  function FirstEnabled(streams: seq<Stream>): (r: nat)
    ensures (forall k :: 0 <= k < |streams| ==> !streams[k].on) ==> r == 0
    ensures (exists k :: 0 <= k < |streams| && streams[k].on) ==>
      exists k :: 0 <= k < |streams| && streams[k].on && r == streams[k].size &&
        forall j :: 0 <= j < k ==> !streams[j].on
  {
    if streams == [] then 0
    else if streams[0].on then streams[0].size
    else
      var r := FirstEnabled(streams[1..]);
      assert forall k :: 1 <= k < |streams| ==> streams[k] == streams[1..][k - 1];
      r
  }

  /** getWidth / getHeight: the depth stream's size if it is on, else the
      image stream's, else the IR stream's, else 0. */
  function SelectSize(depthOn: bool, imageOn: bool, irOn: bool, depth: nat, image: nat, ir: nat): (s: nat)
    ensures s == FirstEnabled([Stream(depthOn, depth), Stream(imageOn, image), Stream(irOn, ir)])
  {
    var streams := [Stream(depthOn, depth), Stream(imageOn, image), Stream(irOn, ir)];
    assert streams[1..][1..][1..] == [];
    assert FirstEnabled(streams[1..][1..]) == if irOn then ir else 0;
    assert FirstEnabled(streams[1..]) == if imageOn then image else if irOn then ir else 0;
    if depthOn then depth else if imageOn then image else if irOn then ir else 0
  }

  class OpenNI {
    /** The global rainbow tables. */
    const pallet: RainbowPalette.Pallet

    var depthOn: bool
    var imageOn: bool
    var irOn: bool
    var useTexture: bool
    var coloring: DepthColoring.Coloring
    var maxDepth: U16

    /** Metadata of the last frame read, per stream. */
    var depthMD: DepthFrame.DepthMeta
    var imageMD: Resolution
    var irMD: Resolution

    /** Double buffers: the consumer reads `current*`, the producer writes `back*`. */
    var currentDepth: array<Byte>
    var backDepth: array<Byte>
    var currentRgb: array<Byte>
    var backRgb: array<Byte>

    var newPixels: bool
    var newFrame: bool

    /** What was last uploaded to the depth and RGB textures. */
    var depthTexture: seq<Byte>
    var rgbTexture: seq<Byte>

    /** The palette is built and its tables have their size; each stream has two distinct buffers of one
        size; no buffer is shared between streams or with the palette. */
    ghost predicate Valid()
      reads this, pallet
    {
      pallet.Sized() && pallet.initialized &&
      currentDepth != backDepth && currentDepth.Length == backDepth.Length &&
      currentRgb != backRgb && currentRgb.Length == backRgb.Length &&
      currentDepth != currentRgb && currentDepth != backRgb &&
      backDepth != currentRgb && backDepth != backRgb &&
      NotPalette(currentDepth) && NotPalette(backDepth) && NotPalette(currentRgb) && NotPalette(backRgb)
    }

    /** `a` is none of the palette tables. */
    predicate NotPalette(a: array<Byte>) {
      a != pallet.red && a != pallet.green && a != pallet.blue
    }

    /** The colouring configuration the producer reads for each frame. */
    function Style(fl: DepthColoring.FloatRamps): DepthColoring.Style
      reads this, pallet, pallet.red, pallet.green, pallet.blue
    {
      DepthColoring.Style(coloring, maxDepth, pallet.Contents(), fl)
    }

    /** ofxOpenNI(): builds the palette once, turns every stream off, selects
        RAINBOW and texture use. No buffer is allocated yet. */
    constructor (pallet: RainbowPalette.Pallet, ramp: RainbowPalette.Ramp)
      requires pallet.Valid()
      modifies pallet, pallet.red, pallet.green, pallet.blue
      ensures Valid() && this.pallet == pallet && pallet.Valid() && pallet.initialized
      ensures pallet.Contents() ==
        if old(pallet.initialized) then old(pallet.Contents()) else RainbowPalette.Built(ramp)
      ensures !depthOn && !imageOn && !irOn
      ensures coloring == DepthColoring.Rainbow && useTexture
      ensures !newPixels && !newFrame
    {
      this.pallet := pallet;
      depthOn, imageOn, irOn := false, false, false;
      useTexture := true;
      coloring := DepthColoring.Rainbow;
      maxDepth := 0;
      depthMD := DepthFrame.DepthMeta(0, 0, 0, 0, 0, []);
      imageMD, irMD := Resolution(0, 0), Resolution(0, 0);
      currentDepth := new Byte[0];
      backDepth := new Byte[0];
      currentRgb := new Byte[0];
      backRgb := new Byte[0];
      newPixels, newFrame := false, false;
      depthTexture, rgbTexture := [], [];
      new;
      pallet.Create(ramp);
    }

    /** openCommon once the SDK has reported which generators exist:
        records the stream flags, allocates the 640 x 480 buffers of the
        enabled streams with `current` on the first and `back` on the second,
        takes the device's maximum depth, and reads the first frame's metadata. */
    method Open(depth: bool, image: bool, ir: bool, deviceMaxDepth: U16,
                md: DepthFrame.DepthMeta, imd: Resolution, ird: Resolution)
      requires Valid()
      modifies this`depthOn, this`imageOn, this`irOn, this`maxDepth,
        this`currentDepth, this`backDepth, this`currentRgb, this`backRgb,
        this`depthMD, this`imageMD, this`irMD
      ensures Valid()
      ensures depthOn == depth && imageOn == image && irOn == ir
      ensures depth ==> (maxDepth == deviceMaxDepth && fresh(currentDepth) && fresh(backDepth) &&
        currentDepth.Length == DepthBufferBytes)
      ensures !depth ==> (maxDepth == old(maxDepth) &&
        currentDepth == old(currentDepth) && backDepth == old(backDepth))
      ensures image ==> (fresh(currentRgb) && fresh(backRgb) && currentRgb.Length == RgbBufferBytes)
      ensures !image ==> (currentRgb == old(currentRgb) && backRgb == old(backRgb))
      ensures depthMD == (if depth then md else old(depthMD))
      ensures imageMD == (if image then imd else old(imageMD))
      ensures irMD == (if ir then ird else old(irMD))
    {
      depthOn, imageOn, irOn := depth, image, ir;
      AllocateDepthBuffers(deviceMaxDepth);
      AllocateRgbBuffers();
      ReadFrame(md, imd, ird);
    }

    /** allocateDepthBuffers: with depth on, takes the device's maximum depth
        and allocates two RGBA buffers, `current` on the first. */
    method AllocateDepthBuffers(deviceMaxDepth: U16)
      requires Valid()
      modifies this`maxDepth, this`currentDepth, this`backDepth
      ensures Valid()
      ensures depthOn ==> (maxDepth == deviceMaxDepth && fresh(currentDepth) && fresh(backDepth) &&
        currentDepth.Length == DepthBufferBytes)
      ensures !depthOn ==> (maxDepth == old(maxDepth) &&
        currentDepth == old(currentDepth) && backDepth == old(backDepth))
    {
      if depthOn {
        maxDepth := deviceMaxDepth;
        currentDepth := new Byte[DepthBufferBytes];
        backDepth := new Byte[DepthBufferBytes];
      }
    }

    /** allocateRGBBuffers: with the image stream on, allocates two RGB
        buffers, `current` on the first. */
    method AllocateRgbBuffers()
      requires Valid()
      modifies this`currentRgb, this`backRgb
      ensures Valid()
      ensures imageOn ==> (fresh(currentRgb) && fresh(backRgb) && currentRgb.Length == RgbBufferBytes)
      ensures !imageOn ==> (currentRgb == old(currentRgb) && backRgb == old(backRgb))
    {
      if imageOn {
        currentRgb := new Byte[RgbBufferBytes];
        backRgb := new Byte[RgbBufferBytes];
      }
    }

    /** setDepthColoring. */
    method SetDepthColoring(c: DepthColoring.Coloring)
      modifies this`coloring
      ensures coloring == c
    {
      coloring := c;
    }

    /** readFrame after the SDK's wait: every generator that exists hands
        over the metadata of the new frame. */
    method ReadFrame(md: DepthFrame.DepthMeta, imd: Resolution, ird: Resolution)
      modifies this`depthMD, this`imageMD, this`irMD
      ensures depthMD == (if depthOn then md else old(depthMD))
      ensures imageMD == (if imageOn then imd else old(imageMD))
      ensures irMD == (if irOn then ird else old(irMD))
    {
      if depthOn {
        depthMD := md;
      }
      if imageOn {
        imageMD := imd;
      }
      if irOn {
        irMD := ird;
      }
    }

    /** generateDepthPixels: nothing happens for frame number 0; otherwise
        every sample of the frame is coloured and written, in row-major
        order, into its four bytes of the back buffer, and no other byte
        changes. */
    method GenerateDepthPixels(fl: DepthColoring.FloatRamps)
      requires Valid()
      requires depthMD.frameId != 0 ==> DepthFrame.Drawable(depthMD, Style(fl), backDepth.Length)
      modifies backDepth
      ensures depthMD.frameId == 0 ==> backDepth[..] == old(backDepth[..])
      ensures depthMD.frameId != 0 ==>
        backDepth[..] == DepthFrame.Render(old(backDepth[..]), depthMD, old(Style(fl)))
    {
      var md := depthMD;
      if md.frameId == 0 {
        return;
      }
      DrawFrame(backDepth, md, Style(fl));
    }

    /** The end of one producer iteration: under the lock, the current and
        back buffers of each enabled stream trade places, and new pixels are
        announced. */
    method SwapBuffers()
      requires Valid()
      modifies this`currentDepth, this`backDepth, this`currentRgb, this`backRgb, this`newPixels
      ensures Valid() && newPixels
      ensures depthOn ==> currentDepth == old(backDepth) && backDepth == old(currentDepth)
      ensures !depthOn ==> currentDepth == old(currentDepth) && backDepth == old(backDepth)
      ensures imageOn ==> currentRgb == old(backRgb) && backRgb == old(currentRgb)
      ensures !imageOn ==> currentRgb == old(currentRgb) && backRgb == old(backRgb)
    {
      if depthOn {
        var aux := backDepth;
        backDepth := currentDepth;
        currentDepth := aux;
      }
      if imageOn {
        var aux := backRgb;
        backRgb := currentRgb;
        currentRgb := aux;
      }
      newPixels := true;
    }

    /** One iteration of threadedFunction: read the frame's metadata, draw
        the depth frame into the back buffer when depth is on, then swap.
        Afterwards the consumer-visible depth buffer holds exactly the frame
        just drawn. */
    method ProducerCycle(md: DepthFrame.DepthMeta, imd: Resolution, ird: Resolution, fl: DepthColoring.FloatRamps)
      requires Valid()
      requires depthOn && md.frameId != 0 ==> DepthFrame.Drawable(md, Style(fl), backDepth.Length)
      modifies this, backDepth
      ensures Valid() && newPixels
      ensures depthOn == old(depthOn) && imageOn == old(imageOn) && irOn == old(irOn)
      ensures coloring == old(coloring) && maxDepth == old(maxDepth) && useTexture == old(useTexture)
      ensures newFrame == old(newFrame)
      ensures depthTexture == old(depthTexture) && rgbTexture == old(rgbTexture)
      ensures depthMD == (if depthOn then md else old(depthMD))
      ensures imageMD == (if imageOn then imd else old(imageMD))
      ensures irMD == (if irOn then ird else old(irMD))
      ensures !depthOn ==> backDepth[..] == old(backDepth[..])
      ensures depthOn ==> currentDepth == old(backDepth) && backDepth == old(currentDepth)
      ensures depthOn ==> (currentDepth[..] ==
        if md.frameId == 0 then old(backDepth[..])
        else DepthFrame.Render(old(backDepth[..]), md, old(Style(fl))))
      ensures !depthOn ==> currentDepth == old(currentDepth) && backDepth == old(backDepth)
      ensures imageOn ==> currentRgb == old(backRgb) && backRgb == old(currentRgb)
      ensures !imageOn ==> currentRgb == old(currentRgb) && backRgb == old(backRgb)
    {
      ReadFrame(md, imd, ird);
      if depthOn {
        GenerateDepthPixels(fl);
      }
      SwapBuffers();
    }

    /** update: when new pixels are announced, the textures of the enabled
        streams take the current buffers, the announcement is consumed and a
        new frame is reported; otherwise nothing changes. */
    method Update()
      requires Valid()
      modifies this`newPixels, this`newFrame, this`depthTexture, this`rgbTexture
      ensures Valid()
      ensures !old(newPixels) ==>
        newPixels == old(newPixels) && newFrame == old(newFrame) &&
        depthTexture == old(depthTexture) && rgbTexture == old(rgbTexture)
      ensures old(newPixels) ==> !newPixels && newFrame
      ensures old(newPixels) ==> (depthTexture ==
        if depthOn && useTexture then currentDepth[..] else old(depthTexture))
      ensures old(newPixels) ==> (rgbTexture ==
        if imageOn && useTexture then currentRgb[..] else old(rgbTexture))
    {
      if newPixels {
        if depthOn && useTexture {
          depthTexture := currentDepth[..];
        }
        if imageOn && useTexture {
          rgbTexture := currentRgb[..];
        }
        newPixels := false;
        newFrame := true;
      }
    }

    /** isNewFrame (the flag is never cleared here). */
    method IsNewFrame() returns (b: bool)
      ensures b == newFrame
    {
      b := newFrame;
    }

    /** getWidth. */
    function Width(): (w: nat)
      reads this
      ensures w == FirstEnabled([Stream(depthOn, depthMD.xRes), Stream(imageOn, imageMD.xRes), Stream(irOn, irMD.xRes)])
    {
      SelectSize(depthOn, imageOn, irOn, depthMD.xRes, imageMD.xRes, irMD.xRes)
    }

    /** getHeight. */
    function Height(): (h: nat)
      reads this
      ensures h == FirstEnabled([Stream(depthOn, depthMD.yRes), Stream(imageOn, imageMD.yRes), Stream(irOn, irMD.yRes)])
    {
      SelectSize(depthOn, imageOn, irOn, depthMD.yRes, imageMD.yRes, irMD.yRes)
    }
  }

  /** The body of generateDepthPixels once a frame is there: the rows of
      the frame, top to bottom, each drawn by DrawRow. */
  method DrawFrame(buf: array<Byte>, md: DepthFrame.DepthMeta, st: DepthColoring.Style)
    requires DepthFrame.Drawable(md, st, buf.Length)
    modifies buf
    ensures buf[..] == DepthFrame.Render(old(buf[..]), md, st)
  {
    ghost var before := buf[..];
    var depth := 0;
    var y := md.yOffset;
    while y < md.yRes + md.yOffset
      invariant md.yOffset <= y <= md.yOffset + md.yRes
      invariant depth == (y - md.yOffset) * md.xRes
      invariant DepthFrame.Drawn(buf[..], before, md, st, depth)
    {
      assert depth + md.xRes <= DepthFrame.SampleCount(md) by {
        DepthFrame.RowStart(md, y);
        DepthFrame.RowWithinFrame(md, y);
      }
      depth := DrawRow(buf, md, st, y, depth, before);
      y := y + 1;
    }
    assert depth == DepthFrame.SampleCount(md);
    DepthFrame.DrawnIsRender(buf[..], before, md, st);
  }

  /** One pass of the inner loop of generateDepthPixels: row `y` colours
      the next `XRes` samples from `depth` on and stores them from byte
      `y * XRes * 4 + XOffset * 4` on, extending the drawn part of the run. */
  method DrawRow(buf: array<Byte>, md: DepthFrame.DepthMeta, st: DepthColoring.Style, y: nat, depth: nat,
                 ghost before: seq<Byte>) returns (next: nat)
    requires DepthFrame.Drawable(md, st, buf.Length) && |before| == buf.Length
    requires md.yOffset <= y < md.yOffset + md.yRes && depth == (y - md.yOffset) * md.xRes
    requires depth + md.xRes <= DepthFrame.SampleCount(md)
    requires DepthFrame.Drawn(buf[..], before, md, st, depth)
    modifies buf
    ensures next == depth + md.xRes == (y + 1 - md.yOffset) * md.xRes
    ensures DepthFrame.Drawn(buf[..], before, md, st, next)
  {
    var texture := y * md.xRes * 4 + md.xOffset * 4;
    assert texture == DepthFrame.FirstByte(md) + 4 * depth && depth + md.xRes == (y + 1 - md.yOffset) * md.xRes by {
      DepthFrame.RowStart(md, y);
    }
    var x := 0;
    next := depth;
    while x < md.xRes
      invariant 0 <= x <= md.xRes
      invariant next == depth + x
      invariant texture == DepthFrame.FirstByte(md) + 4 * next
      invariant DepthFrame.Drawn(buf[..], before, md, st, next)
    {
      var px := DepthColoring.ColorDepth(md.data[next], st);
      ghost var prev := buf[..];
      WritePixel(buf, texture, px);
      DepthFrame.DrawnStep(prev, buf[..], before, md, st, next);
      x, next, texture := x + 1, next + 1, texture + 4;
    }
  }

  /** Stores the four channels of `px` at `t`: `texture[0..3] = red, green, blue, alpha`. */
  method WritePixel(buf: array<Byte>, t: nat, px: Rgba)
    requires t + 4 <= buf.Length
    modifies buf
    ensures forall k :: 0 <= k < buf.Length ==>
      buf[k] == if t <= k < t + 4 then px.Channel(k - t) else old(buf[k])
  {
    buf[t] := px.r;
    buf[t + 1] := px.g;
    buf[t + 2] := px.b;
    buf[t + 3] := px.a;
  }

  /** Two producer swaps in a row bring every buffer back to its place. */
  method SwapTwice(cam: OpenNI)
    requires cam.Valid()
    modifies cam
    ensures cam.Valid()
    ensures cam.currentDepth == old(cam.currentDepth) && cam.backDepth == old(cam.backDepth)
    ensures cam.currentRgb == old(cam.currentRgb) && cam.backRgb == old(cam.backRgb)
  {
    cam.SwapBuffers();
    cam.SwapBuffers();
  }

  /** A producer cycle followed by an update puts the frame just drawn into
      the depth texture and reports a new frame. */
  method CycleThenUpdate(cam: OpenNI, md: DepthFrame.DepthMeta, imd: Resolution, ird: Resolution,
                         fl: DepthColoring.FloatRamps)
    requires cam.Valid() && cam.depthOn && cam.useTexture && md.frameId != 0
    requires DepthFrame.Drawable(md, cam.Style(fl), cam.backDepth.Length)
    modifies cam, cam.backDepth
    ensures cam.Valid() && cam.newFrame && !cam.newPixels
    ensures cam.depthTexture == DepthFrame.Render(old(cam.backDepth[..]), md, old(cam.Style(fl)))
  {
    cam.ProducerCycle(md, imd, ird, fl);
    cam.Update();
  }
}
