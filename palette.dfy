/** The colour palette: a sum of Gaussian bumps per channel, centred on the
    anchors of a hand-authored heat map, clamped to [0, 255] and truncated. */
module Palette {
  import opened Config
  import opened Scale

  datatype Rgb = Rgb(r: int, g: int, b: int)

  /** One control point of the heat map: a position in [0, 1] and its colour. */
  datatype Anchor = Anchor(pos: real, colour: Rgb)

  datatype Channel = Red | Green | Blue

  /** The heat map: black, blue, green, red, yellow, orange, white. */
  const Heatmap: seq<Anchor> := [
    Anchor(0.0, Rgb(0, 0, 0)),
    Anchor(0.2, Rgb(0, 0, 128)),
    Anchor(0.4, Rgb(0, 128, 0)),
    Anchor(0.6, Rgb(128, 0, 0)),
    Anchor(0.8, Rgb(192, 192, 0)),
    Anchor(0.9, Rgb(255, 192, 0)),
    Anchor(1.0, Rgb(255, 255, 255))
  ]

  predicate IsChannel(v: int) { 0 <= v <= 255 }

  predicate IsColour(c: Rgb) { IsChannel(c.r) && IsChannel(c.g) && IsChannel(c.b) }

  /** A palette as the renderer needs it: ColorDepth entries, each a valid colour. */
  predicate IsPalette(p: seq<Rgb>)
  {
    |p| == ColorDepth && forall i :: 0 <= i < |p| ==> IsColour(p[i])
  }

  function Amplitude(a: Anchor, ch: Channel): real
  {
    match ch
    case Red => a.colour.r as real
    case Green => a.colour.g as real
    case Blue => a.colour.b as real
  }

  /** a * exp(-(x - b)^2 / (2 c^2)) + d, with the exponential supplied by the caller. */
  function Gaussian(exp: real -> real, x: real, a: real, b: real, c: real, d: real): real
    requires c != 0.0
  {
    a * exp(-((x - b) * (x - b)) / (2.0 * (c * c))) + d
  }

  /** The sum over the anchors of one channel's Gaussians, each centred at
      pos * width with spread sigma. */
  function GaussianSum(exp: real -> real, x: real, width: real, anchors: seq<Anchor>, sigma: real, ch: Channel): real
    requires anchors == [] || sigma != 0.0
  {
    if anchors == [] then 0.0
    else Gaussian(exp, x, Amplitude(anchors[0], ch), anchors[0].pos * width, sigma, 0.0)
         + GaussianSum(exp, x, width, anchors[1..], sigma, ch)
  }

  /** int(constrain(v, 0, 255)): whatever the sum is, a channel value in [0, 255]. */
  function ToChannel(v: real): (c: int)
    ensures IsChannel(c)
    ensures 0.0 <= v <= 255.0 ==> c as real <= v < c as real + 1.0
    ensures v < 0.0 ==> c == 0
    ensures 255.0 <= v ==> c == 255
  {
    Trunc(Constrain(v, 0.0, 255.0))
  }

  /** The colour of position x in a palette of the given width. The spread
      width / (spread * |cmap|) is only evaluated when there is an anchor. */
  function Gradient(exp: real -> real, x: real, width: real, cmap: seq<Anchor>, spread: real): (c: Rgb)
    requires cmap == [] || (spread != 0.0 && width != 0.0)
    ensures IsColour(c)
    ensures cmap == [] ==> c == Rgb(0, 0, 0)
  {
    var sigma := if cmap == [] then 0.0 else width / (spread * |cmap| as real);
    assert cmap != [] ==> sigma * (spread * |cmap| as real) == width;
    Rgb(ToChannel(GaussianSum(exp, x, width, cmap, sigma, Red)),
        ToChannel(GaussianSum(exp, x, width, cmap, sigma, Green)),
        ToChannel(GaussianSum(exp, x, width, cmap, sigma, Blue)))
  }

  /** The palette built once at start-up: entry i is the gradient at i. */
  function Colormap(exp: real -> real): (p: seq<Rgb>)
    ensures IsPalette(p)
    ensures forall i :: 0 <= i < |p| ==> p[i] == Gradient(exp, i as real, ColorDepth as real, Heatmap, 1.0)
  {
    seq(ColorDepth, i => Gradient(exp, i as real, ColorDepth as real, Heatmap, 1.0))
  }
}
