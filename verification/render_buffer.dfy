/** The output image of render_buffer.rs: a flat, append-only sequence of
    32-bit channel values, three per pixel. */
module RenderBuffers {

  const ChannelsPerPixel: nat := 3

  /** `RenderBufferI32`. The reserved capacity of the Rust vector is not
      observable and is not modelled. */
  datatype RenderBufferI32 = RenderBufferI32(width: nat, height: nat, buffer: seq<int>)

  /** One pushed pixel: red, green and blue channel values. */
  datatype Pixel = Pixel(r: int, g: int, b: int)

  /** `RenderBufferI32::new`: the dimensions are recorded and nothing is written yet. */
  function New(width: nat, height: nat): (b: RenderBufferI32)
    ensures b.width == width && b.height == height
    ensures |b.buffer| == 0
  {
    RenderBufferI32(width, height, [])
  }

  /** `push_pixel`: appends the three channels in the order red, green, blue. */
  function PushPixel(b: RenderBufferI32, r: int, g: int, bl: int): (o: RenderBufferI32)
    ensures o.width == b.width && o.height == b.height
    ensures |o.buffer| == |b.buffer| + ChannelsPerPixel
    ensures o.buffer[..|b.buffer|] == b.buffer
    ensures o.buffer[|b.buffer|] == r && o.buffer[|b.buffer| + 1] == g && o.buffer[|b.buffer| + 2] == bl
  {
    RenderBufferI32(b.width, b.height, b.buffer + [r, g, bl])
  }

  /** Pushes the pixels one after the other. */
  function PushPixels(b: RenderBufferI32, pixels: seq<Pixel>): RenderBufferI32
    decreases |pixels|
  {
    if |pixels| == 0 then b
    else
      var p := pixels[|pixels| - 1];
      PushPixel(PushPixels(b, pixels[..|pixels| - 1]), p.r, p.g, p.b)
  }

  /** Reads back the `i`-th pixel from the channel triple it occupies. */
  function PixelAt(buffer: seq<int>, i: nat): Pixel
    requires ChannelsPerPixel * i + 2 < |buffer|
  {
    Pixel(buffer[ChannelsPerPixel * i], buffer[ChannelsPerPixel * i + 1], buffer[ChannelsPerPixel * i + 2])
  }

  /** Pushing grows the buffer by one triple per pixel, never touching the
      dimensions or what was already written. */
  lemma {:induction false} PushPixelsGrowth(b: RenderBufferI32, pixels: seq<Pixel>)
    ensures var o := PushPixels(b, pixels);
      && o.width == b.width && o.height == b.height
      && |o.buffer| == |b.buffer| + ChannelsPerPixel * |pixels|
      && o.buffer[..|b.buffer|] == b.buffer
    decreases |pixels|
  {
    if |pixels| > 0 {
      PushPixelsGrowth(b, pixels[..|pixels| - 1]);
    }
  }

  /** Pushing appends one triple per pixel behind the earlier content, never
      touching the dimensions or what was already written. */
  lemma {:induction false} PushPixelsLayout(b: RenderBufferI32, pixels: seq<Pixel>)
    ensures var o := PushPixels(b, pixels);
      && o.width == b.width && o.height == b.height
      && |o.buffer| == |b.buffer| + ChannelsPerPixel * |pixels|
      && o.buffer[..|b.buffer|] == b.buffer
      && forall i :: 0 <= i < |pixels| ==>
           && o.buffer[|b.buffer| + ChannelsPerPixel * i] == pixels[i].r
           && o.buffer[|b.buffer| + ChannelsPerPixel * i + 1] == pixels[i].g
           && o.buffer[|b.buffer| + ChannelsPerPixel * i + 2] == pixels[i].b
  {
    if |pixels| > 0 {
      var init := pixels[..|pixels| - 1];
      PushPixelsLayout(b, init);
      var mid := PushPixels(b, init);
      var o := PushPixels(b, pixels);
      assert o.buffer == mid.buffer + [pixels[|pixels| - 1].r, pixels[|pixels| - 1].g, pixels[|pixels| - 1].b];
      forall i | 0 <= i < |pixels|
        ensures o.buffer[|b.buffer| + ChannelsPerPixel * i] == pixels[i].r
        ensures o.buffer[|b.buffer| + ChannelsPerPixel * i + 1] == pixels[i].g
        ensures o.buffer[|b.buffer| + ChannelsPerPixel * i + 2] == pixels[i].b
      {
        if i < |pixels| - 1 {
          assert init[i] == pixels[i];
        }
      }
    }
  }

  /** After `k` pushes into a fresh buffer the length is `3k` and pixel `i`
      reads back from entries `3i`, `3i + 1`, `3i + 2`. */
  lemma FreshBufferRoundTrip(width: nat, height: nat, pixels: seq<Pixel>)
    ensures var o := PushPixels(New(width, height), pixels);
      && o.width == width && o.height == height
      && |o.buffer| == ChannelsPerPixel * |pixels|
      && forall i :: 0 <= i < |pixels| ==> PixelAt(o.buffer, i) == pixels[i]
  {
    PushPixelsLayout(New(width, height), pixels);
  }

  /** Pushing two runs of pixels is pushing their concatenation. */
  lemma {:induction false} PushPixelsAppend(b: RenderBufferI32, p: seq<Pixel>, q: seq<Pixel>)
    ensures PushPixels(PushPixels(b, p), q) == PushPixels(b, p + q)
    decreases |q|
  {
    if |q| > 0 {
      PushPixelsAppend(b, p, q[..|q| - 1]);
      assert (p + q)[..|p + q| - 1] == p + q[..|q| - 1];
    } else {
      assert p + q == p;
    }
  }
}
