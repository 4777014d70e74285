/**
 * The pixel sink of src/neopixel_driver.c: a 256-entry frame of (index, colour)
 * pairs, its bounds-checked writers, and the brightness correction applied to
 * a copy of the frame before every transmission.
 */
module NeopixelDriver {
  import opened Machine

  const NUM_LEDS: nat := 256
  const BRIGHTNESS_SCALE: nat := 256
  const MAX_BRIGHTNESS: nat := 200

  /** `tNeopixel`: the strip position a colour is meant for, and the colour as 0x00RRGGBB. */
  datatype Pixel = Pixel(index: Word, rgb: Word)

  /** The driver's `pixelBuffer`, a fixed array of NUM_LEDS pixels. */
  predicate IsFrame(f: seq<Pixel>)
  {
    |f| == NUM_LEDS
  }

  /** The frame as the static initialiser leaves it: every field zero. */
  function BlankFrame(): (f: seq<Pixel>)
    ensures IsFrame(f)
    ensures forall i :: 0 <= i < |f| ==> f[i].rgb == 0 && f[i].index == 0
  {
    seq(NUM_LEDS, _ => Pixel(0, 0))
  }

  /** `neopixel_driver_setPixel`: out-of-range indices are logged and ignored. */
  function SetPixel(f: seq<Pixel>, index: int, color: Word): (f': seq<Pixel>)
    requires IsFrame(f)
    ensures IsFrame(f')
    ensures (index < 0 || index >= NUM_LEDS) ==> f' == f
    ensures 0 <= index < NUM_LEDS ==> f'[index] == Pixel(index, color)
    ensures forall j :: 0 <= j < NUM_LEDS && j != index ==> f'[j] == f[j]
  {
    if index < 0 || index >= NUM_LEDS then f
    else f[index := Pixel(index, color)]
  }

  /** `neopixel_driver_setRawPixel`: stores the pixel at its own index, which the
      caller must keep in range (the array write is unchecked). */
  function SetRawPixel(f: seq<Pixel>, p: Pixel): (f': seq<Pixel>)
    requires IsFrame(f)
    requires p.index < NUM_LEDS
    ensures IsFrame(f')
    ensures f'[p.index] == p
    ensures forall j :: 0 <= j < NUM_LEDS && j != p.index ==> f'[j] == f[j]
  {
    f[p.index := p]
  }

  /** `neopixel_driver_fill_matrix` */
  function FillMatrix(rgb: Word): (f: seq<Pixel>)
    ensures IsFrame(f)
    ensures forall i :: 0 <= i < NUM_LEDS ==> f[i].index == i && f[i].rgb == rgb
  {
    seq(NUM_LEDS, i requires 0 <= i < NUM_LEDS => Pixel(i, rgb))
  }

  /** A pixel written through SetPixel keeps its index field in step with its position. */
  lemma SetPixelIndexAgrees(f: seq<Pixel>, index: int, color: Word)
    requires IsFrame(f)
    requires 0 <= index < NUM_LEDS
    ensures SetRawPixel(f, Pixel(index, color)) == SetPixel(f, index, color)
  {
  }

  // ---------------------------------------------------------------------------
  // Colour channels and brightness

  function Red(rgb: Word): Byte { (rgb / 0x1_0000) % 0x100 }
  function Green(rgb: Word): Byte { (rgb / 0x100) % 0x100 }
  function Blue(rgb: Word): Byte { rgb % 0x100 }

  /** `(r << 16) | (g << 8) | b` for 8-bit channels: the bit fields are disjoint. */
  function Pack(r: Byte, g: Byte, b: Byte): (rgb: Word)
    ensures rgb < 0x100_0000
    ensures Red(rgb) == r && Green(rgb) == g && Blue(rgb) == b
  {
    var rgb := r * 0x1_0000 + g * 0x100 + b;
    assert rgb / 0x100 == r * 0x100 + g;
    assert rgb / 0x1_0000 == r;
    rgb
  }

  /** `MIN(bright, MAX_BRIGHTNESS)`: the factor actually applied. */
  function Factor(bright: Byte): (k: Byte)
    ensures k <= MAX_BRIGHTNESS && k <= bright
    ensures bright <= MAX_BRIGHTNESS ==> k == bright
  {
    if bright < MAX_BRIGHTNESS then bright else MAX_BRIGHTNESS
  }

  /** `(c * k) / BRIGHTNESS_SCALE` on one channel; never brighter than the input
      and never above 199 for a factor within the cap. */
  function Scale(c: Byte, k: Byte): (s: Byte)
    requires k <= MAX_BRIGHTNESS
    ensures s <= c && s < MAX_BRIGHTNESS
    ensures s * BRIGHTNESS_SCALE <= c * k < s * BRIGHTNESS_SCALE + BRIGHTNESS_SCALE
  {
    ScaleBounds(c, k);
    (c * k) / BRIGHTNESS_SCALE
  }

  lemma ScaleBounds(c: Byte, k: Byte)
    requires k <= MAX_BRIGHTNESS
    ensures 0 <= c * k <= c * 200 <= 255 * 200
    ensures (c * k) / 256 <= c
  {
    assert c * k <= c * 200 by {
      MulMono(c, k, 200);
    }
    assert c * 200 <= 255 * 200 by {
      MulMono(200, c, 255);
    }
  }

  lemma MulMono(a: nat, b: nat, c: nat)
    requires b <= c
    ensures a * b <= a * c
  {
  }

  /** One corrected pixel: channels scaled, top byte dropped, index copied. */
  function ScalePixel(p: Pixel, k: Byte): (q: Pixel)
    requires k <= MAX_BRIGHTNESS
    ensures q.index == p.index && q.rgb < 0x100_0000
    ensures Red(q.rgb) == Scale(Red(p.rgb), k)
    ensures Green(q.rgb) == Scale(Green(p.rgb), k)
    ensures Blue(q.rgb) == Scale(Blue(p.rgb), k)
  {
    Pixel(p.index, Pack(Scale(Red(p.rgb), k), Scale(Green(p.rgb), k), Scale(Blue(p.rgb), k)))
  }

  /** `neopixel_driver_applyBrightness`, with the float brightness already
      converted to the byte `bright`. */
  method ApplyBrightness(input: seq<Pixel>, bright: Byte) returns (output: seq<Pixel>)
    requires IsFrame(input)
    ensures IsFrame(output)
    ensures forall i :: 0 <= i < NUM_LEDS ==>
      && output[i].index == input[i].index
      && output[i].rgb < 0x100_0000
      && Red(output[i].rgb) == Red(input[i].rgb) * Factor(bright) / BRIGHTNESS_SCALE
      && Green(output[i].rgb) == Green(input[i].rgb) * Factor(bright) / BRIGHTNESS_SCALE
      && Blue(output[i].rgb) == Blue(input[i].rgb) * Factor(bright) / BRIGHTNESS_SCALE
    ensures bright == 0 ==> forall i :: 0 <= i < NUM_LEDS ==> output[i].rgb == 0
  {
    var k := Factor(bright);
    output := [];
    var i := 0;
    while i < NUM_LEDS
      invariant 0 <= i <= NUM_LEDS
      invariant |output| == i
      invariant forall j :: 0 <= j < i ==> output[j] == ScalePixel(input[j], k)
      invariant k == 0 ==> forall j :: 0 <= j < i ==> output[j].rgb == 0
    {
      output := output + [ScalePixel(input[i], k)];
      i := i + 1;
    }
  }

  // ---------------------------------------------------------------------------
  // Brightness state

  /** `neopixel_driver_setBrightness`: values outside [0, 1] are rejected. */
  function SetBrightness(current: real, b: real): (r: real)
    ensures 0.0 <= b <= 1.0 ==> r == b
    ensures !(0.0 <= b <= 1.0) ==> r == current
    ensures 0.0 <= current <= 1.0 ==> 0.0 <= r <= 1.0
  {
    if b < 0.0 || b > 1.0 then current else b
  }
}
