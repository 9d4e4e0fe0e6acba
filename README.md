# ofxOpenNI depth pipeline in Dafny

A model of the self-contained logic of the openFrameworks OpenNI adapter
`ofxOpenNI` (`src/ofxOpenNI.cpp`), with proofs about it:

- **Rainbow palette** (`CreateRainbowPallet`). Three global 256-entry byte
  tables start at zero and are filled once, guarded by the flag
  `rainbowPalletInit`. Only indices 1 to 254 are written, from a
  five-segment ramp. `RainbowPalette.Pallet` is a class over three arrays.
  Its `Create` method fills them with a loop and is proved against the value
  `Built(ramp)`.
- **Depth colouring** (the per-sample `switch` of `generateDepthPixels`).
  It maps a raw 16-bit depth sample, the colouring mode, the device's
  maximum depth and the palette to one RGBA pixel (`DepthColoring`).
- **Depth buffer fill** (the nested loops of `generateDepthPixels`). Every
  sample of the frame is written, in row-major order, into its four bytes of
  the back RGBA buffer. `Camera.DrawFrame` and `Camera.DrawRow` are the
  loops. They are proved to produce `DepthFrame.Render`, a value-level
  description of the drawn buffer. `DepthFrame` states where each sample
  lands and that nothing else changes.
- **Double-buffer hand-off** (`threadedFunction`, `update`).
  - The `Camera.OpenNI` class holds the stream flags, the current and back
    buffers and the `bNewPixels` and `bNewFrame` flags.
  - One producer iteration reads the frame, draws it and swaps the buffers
    of the enabled streams. One `update` hands the current buffers to the
    textures.
  - Both are modelled as sequential steps.
- The priority selector of `getWidth` and `getHeight`.

Modules:

- `Types`: bytes, 16-bit values and colours.
- `Arithmetic`: division and multiplication facts.
- `RainbowPalette`: the palette tables.
- `DepthColoring`: the per-sample colour.
- `DepthFrame`: the frame layout in the buffer.
- `Camera`: the adapter object and its loops.

## Model

| member | source | states |
|---|---|---|
| RainbowPalette.Pallet.constructor | src/ofxOpenNI.cpp:22-25 | before initialisation the flag is clear and all three tables are zero |
| RainbowPalette.Pallet.Create | src/ofxOpenNI.cpp:27-62 | if the flag is already set, the tables and the flag stay as they are; otherwise indices 1..254 hold the ramp colours and 0 and 255 stay zero; either way the flag is set afterwards |
| RainbowPalette.CreateTwice | src/ofxOpenNI.cpp:27-28 | a second build, with any ramp values, leaves the tables the first build produced |
| RainbowPalette.BuiltShape | src/ofxOpenNI.cpp:23-25 | entries 0 and 255 of the built palette are black; every entry in between has one channel at 255 and one at 0 |
| RainbowPalette.SegmentChannels | src/ofxOpenNI.cpp:31-56 | the constant channels of each segment: i<=29 G=0,B=255; 30..86 R=0,B=255; 87..141 R=0,G=255; 142..199 G=255,B=0; 200..254 R=255,B=0 |
| DepthColoring.RainbowIndex | src/ofxOpenNI.cpp:434-438 | the RAINBOW index as written: it divides by zero exactly when max_depth < 256; it is in the table exactly when the quotient is below 256; otherwise it overruns; when defined, the sample lies in the index's bucket of width max_depth/256 |
| DepthColoring.RainbowOverrunsAtMaxDepth | src/ofxOpenNI.cpp:435 | for every max_depth >= 256, a sample equal to max_depth gives an index of at least 256 |
| DepthColoring.RainbowOverrunExample | src/ofxOpenNI.cpp:435 | max_depth 10000: sample 10000 gives index 256, and sample 9983 gives the last entry, 255 |
| DepthColoring.ClampedRainbowIndex | src/ofxOpenNI.cpp:434-438 | the corrected index is always below 256; it equals the written index wherever that is in range, and it is 255 where that overruns |
| DepthColoring.ClampedRainbowIndexMonotone | src/ofxOpenNI.cpp:435 | a deeper sample never gets an earlier palette entry |
| DepthColoring.RainbowNearestBucket | src/ofxOpenNI.cpp:435 | samples below one step of max_depth/256 use palette entry 0 |
| DepthColoring.PsychedelicHue | src/ofxOpenNI.cpp:393-432 | each of the ten buckets has a non-black colour whose channels are 0, 127 or 255 |
| DepthColoring.PsychedelicHuesDistinct | src/ofxOpenNI.cpp:393-432 | the ten buckets have pairwise different colours |
| DepthColoring.PsychedelicByBucket | src/ofxOpenNI.cpp:390-433 | in PSYCHEDELIC and PSYCHEDELIC_SHADES the RGB depends only on (d/10)%10, through the ten-entry table |
| DepthColoring.ShadesFallThrough | src/ofxOpenNI.cpp:390-392 | PSYCHEDELIC_SHADES gives the same RGB as PSYCHEDELIC; only the alpha of a non-zero sample differs, and it is the scaled value |
| DepthColoring.BluesColor | src/ofxOpenNI.cpp:450-473 | below 256 the colour is (0,0,index); from 256 blue is full; from 511 green is full too; from 766 the colour is white |
| DepthColoring.BluesMonotone | src/ofxOpenNI.cpp:447-473 | the BLUES ramp never gets darker as its index grows, the 8-bit wrap included |
| DepthColoring.BluesWrapAt511 | src/ofxOpenNI.cpp:456-467 | at index 511 the stored `(511 % 256) + 1` wraps to 0, so 510 and 511 give the same colour, and 512 gives red 1 |
| DepthColoring.ColorDepth | src/ofxOpenNI.cpp:382-511 | a zero sample has alpha 0 in every mode; any other sample has alpha 255, except in PSYCHEDELIC_SHADES where it is the scaled value; STATUS is black; CYCLIC_RAINBOW is palette entry d%256; RAINBOW is the written index's entry wherever that is in range; BLUES is the BLUES ramp at the float-computed index; GREY is the float-computed level in all three channels |
| DepthFrame.RowStart | src/ofxOpenNI.cpp:379-381 | row y's texture pointer is the first byte of the frame plus four bytes per sample of the rows above; the end of row y is the start of row y+1 |
| DepthFrame.RowWithinFrame | src/ofxOpenNI.cpp:379-381 | no row reads past the last sample of the frame |
| DepthFrame.PixelIndex | src/ofxOpenNI.cpp:379-381 | pixel x of row y is sample (y-YOffset)*XRes+x, and it is stored at byte (y*XRes+XOffset)*4+4x |
| DepthFrame.RenderedSample | src/ofxOpenNI.cpp:504-511 | in the drawn buffer, byte c of sample s's pixel is channel c of that sample's colour |
| DepthFrame.RenderKeepsOutside | src/ofxOpenNI.cpp:379-513 | bytes before or after the frame's run keep their old value |
| DepthFrame.RenderedAlpha | src/ofxOpenNI.cpp:508-511 | the alpha byte stored for a zero sample is 0; for any other sample it is 255, or the scaled value in PSYCHEDELIC_SHADES |
| DepthFrame.DrawnStep | src/ofxOpenNI.cpp:381 | storing the pixel of the next sample at the texture pointer extends the drawn part by one sample |
| DepthFrame.DrawnIsRender | src/ofxOpenNI.cpp:379-513 | once every sample is drawn, the buffer is the rendered one |
| Camera.FirstEnabled | src/ofxOpenNI.cpp:571-593 | the result is 0 when no stream is on; otherwise it is the size of the first stream that is on |
| Camera.SelectSize | src/ofxOpenNI.cpp:571-593 | depth before image before IR, as a first-enabled choice |
| Camera.OpenNI.Width | src/ofxOpenNI.cpp:571-581 | the XRes of the first enabled stream among depth, image and IR, else 0 |
| Camera.OpenNI.Height | src/ofxOpenNI.cpp:583-593 | the YRes of the first enabled stream among depth, image and IR, else 0 |
| Camera.OpenNI.constructor | src/ofxOpenNI.cpp:64-78 | builds the palette once; every stream is off; the colouring is RAINBOW; textures are used |
| Camera.OpenNI.Open | src/ofxOpenNI.cpp:154-212 | records which generators exist, allocates the buffers of the enabled streams, and reads the first frame's metadata |
| Camera.OpenNI.AllocateDepthBuffers | src/ofxOpenNI.cpp:123-132 | with depth on: the maximum depth is the device's, and there are two fresh 640x480 RGBA buffers; otherwise nothing changes |
| Camera.OpenNI.AllocateRgbBuffers | src/ofxOpenNI.cpp:134-142 | with the image on: there are two fresh 640x480 RGB buffers; otherwise nothing changes |
| Camera.OpenNI.SetDepthColoring | src/ofxOpenNI.cpp:274-276 | the colouring mode becomes the one given |
| Camera.OpenNI.ReadFrame | src/ofxOpenNI.cpp:291-301 | each enabled stream's metadata becomes the new frame's; the others keep theirs |
| Camera.OpenNI.GenerateDepthPixels | src/ofxOpenNI.cpp:369-515 | frame number 0 leaves the back buffer untouched; otherwise the back buffer becomes the rendered frame |
| Camera.DrawFrame | src/ofxOpenNI.cpp:378-513 | the rows, top to bottom, turn the buffer into the rendered frame |
| Camera.DrawRow | src/ofxOpenNI.cpp:380-512 | one row consumes the next XRes samples and extends the drawn part of the run by exactly those samples |
| Camera.WritePixel | src/ofxOpenNI.cpp:504-511 | the four bytes at the texture pointer become red, green, blue and alpha; no other byte changes |
| Camera.OpenNI.SwapBuffers | src/ofxOpenNI.cpp:317-329 | current and back trade places only for enabled streams; bNewPixels is set |
| Camera.SwapTwice | src/ofxOpenNI.cpp:317-329 | two swaps restore every buffer to its place |
| Camera.OpenNI.ProducerCycle | src/ofxOpenNI.cpp:308-331 | after one iteration, each enabled stream's metadata is the new frame's and the others keep theirs; with depth on, the current depth buffer is the old back buffer with the new frame drawn into it; with depth off, the depth buffers and their contents are unchanged; the RGB buffers are swapped only when the image is on; the stream flags and the colouring are unchanged; bNewPixels is set |
| Camera.OpenNI.Update | src/ofxOpenNI.cpp:337-350 | without bNewPixels nothing changes; with it, the textures of the enabled streams take the current buffers when textures are used, bNewPixels is cleared and bNewFrame is set |
| Camera.OpenNI.IsNewFrame | src/ofxOpenNI.cpp:333-335 | returns bNewFrame |
| Camera.CycleThenUpdate | src/ofxOpenNI.cpp:308-350 | a producer iteration followed by an update puts the frame just drawn into the depth texture and reports a new frame |

## Left out

- Floating-point values are parameters, each bounded only by its integer type. They are the five palette ramp expressions (`Ramp`), the PSYCHEDELIC_SHADES alpha scale (a value per last digit of the sample), the BLUES index and the GREY level.
- RainbowPalette.Pallet.Create: states the fixed channels exactly but not the ramp values, which are float expressions cast to a byte.
- DepthColoring.ColorDepth: BLUES and GREY are stated in terms of the float-computed index and level. Those values themselves are abstract.
- DepthColoring.ColorDepth: in RAINBOW the pixel uses the corrected, clamped index (see Findings). The source reads past the tables there.
- DepthColoring.Style.Defined: RAINBOW with a maximum depth below 256 divides by zero in the source. The model makes this a precondition rather than an outcome.
- Camera.OpenNI.GenerateDepthPixels: the source does no bounds check. The model requires the metadata to hold every sample and the buffer to hold the whole frame. It also requires `YOffset + YRes` and `XRes` to stay below 65536, since otherwise the 16-bit loop counters wrap (`DepthFrame.Fits`).
- Camera.OpenNI.Width: returns a natural number where the source returns a float.
- Camera.OpenNI.Height: returns a natural number where the source returns a float.
- Camera.OpenNI.Open: node enumeration is not modelled. The generators that exist arrive as flags. Audio and player generators are not modelled.
- Camera.OpenNI.ReadFrame: the SDK's `WaitOneUpdateAll`/`WaitAnyUpdateAll` and `GetMetaData` calls are not modelled. The new metadata arrives as a parameter, and a generator's `IsValid` is taken to be its stream flag.
- `generateImagePixels` is not part of this model. It is one library copy into the back RGB buffer, so the RGB buffers' contents are not modelled; their swap is.
- Texture allocation, upload and drawing are not modelled, since they are graphics-library I/O (`draw`, `drawRGB`, `loadData`). A texture upload is the snapshot of the current buffer's contents.
- Threading, the mutex and `isThreadRunning` are left out. One producer iteration and one `update` are sequential steps.
- Not modelled, since they hold no local logic beyond SDK calls: `initConstants`, `onErrorStateChanged`, `addLicense`, `setupFromXML`, `setupFromRecording` and the accessors that return SDK objects or the current pixel buffers.
- The initial values of `bNewPixels` and `bNewFrame` come from the class declaration, which is not part of this model. Both are taken to be false.
- `bNewFrame` is set by `update` and is never cleared in this file. The model follows that, though the flag's description reads as consumed once.

## Findings

| source | as written | input that shows it | evidently intended | confidence | as-written member | corrected member |
|---|---|---|---|---|---|---|
| src/ofxOpenNI.cpp:435-438 | RAINBOW indexes the 256-entry tables with `d / (max_depth / 256)`, unchecked | max_depth = 10000, d = 10000: step 39, index 256, one past the tables (any max_depth >= 256 overruns at d = max_depth) | an index in 0..255, the deepest samples taking the last entry | not executed | DepthColoring.RainbowIndex (overrun shown by DepthColoring.RainbowOverrunsAtMaxDepth and DepthColoring.RainbowOverrunExample) | DepthColoring.ClampedRainbowIndex |
