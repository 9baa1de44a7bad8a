/** Pixel buffers and the rasterizer the store calls on a miss. The vector
    engine itself (parsing the document, filling and stroking its shapes) is
    foreign code, so it enters the model as a parameter: whether it accepts a
    document, and the colour it paints at each pixel. What the store relies on
    (failure is reported, and success has exactly the requested size) is
    stated and proved here. */
module Raster {
  import opened Common
  import FaceSvg

  /** Four bytes per pixel: red, green, blue, alpha. */
  datatype Pixel = Pixel(red: u8, green: u8, blue: u8, alpha: u8)

  const TransparentPixel: Pixel := Pixel(0, 0, 0, 0)

  /** A `width` x `height` buffer stored row after row. */
  datatype Pixmap = Pixmap(width: nat, height: nat, pixels: seq<Pixel>)

  predicate WellSized(p: Pixmap)
  {
    |p.pixels| == p.width * p.height
  }

  /** `tiny_skia::Pixmap::new`: a zero width or height cannot be allocated;
      otherwise the buffer is fully transparent. */
  function PixmapNew(width: nat, height: nat): (r: Option<Pixmap>)
    ensures r.Some? <==> width > 0 && height > 0
    ensures r.Some? ==> r.value.width == width && r.value.height == height && WellSized(r.value)
    ensures r.Some? ==> forall i :: 0 <= i < |r.value.pixels| ==> r.value.pixels[i] == TransparentPixel
  {
    if width == 0 || height == 0 then None
    else Some(Pixmap(width, height, seq(width * height, _ => TransparentPixel)))
  }

  /** The uniform scale that maps the document's 200 x 120 canvas onto a
      `width` x `height` buffer, one factor per axis. */
  datatype Transform = Scale(sx: real, sy: real)

  function FromScale(width: nat, height: nat): (t: Transform)
    ensures t.sx * FaceSvg.OriSvgWidth as real == width as real
    ensures t.sy * FaceSvg.OriSvgHeight as real == height as real
  {
    Scale(width as real / FaceSvg.OriSvgWidth as real, height as real / FaceSvg.OriSvgHeight as real)
  }

  /** The foreign vector engine: `parses` says whether a document is accepted;
      `paint(svg, t, w, h, i)` is the colour of pixel `i` after drawing `svg`
      with transform `t` onto a transparent `w` x `h` buffer. */
  datatype Engine = Engine(parses: string -> bool, paint: (string, Transform, nat, nat, nat) -> Pixel)

  /** `get_svg_pixmap`: parse, allocate, draw. */
  function GetSvgPixmap(svg: string, width: nat, height: nat, engine: Engine): (r: Option<Pixmap>)
    ensures r.Some? <==> engine.parses(svg) && width > 0 && height > 0
    ensures r.Some? ==> r.value.width == width && r.value.height == height && WellSized(r.value)
  {
    if !engine.parses(svg) then None
    else
      var transform := FromScale(width, height);
      match PixmapNew(width, height)
      case None => None
      case Some(canvas) =>
        Some(canvas.(pixels := seq(|canvas.pixels|, i requires 0 <= i => engine.paint(svg, transform, width, height, i))))
  }
}
