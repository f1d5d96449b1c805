/** Temperature-to-palette-index mapping and the per-frame colour lookup. */
module Render {
  import opened Config
  import opened Scale
  import opened Palette

  /** A slot of the output list: None until the loop fills it. */
  datatype Option<T> = None | Some(value: T)

  /** int(constrain(map_value(t, MINTEMP, MAXTEMP, 0, COLORDEPTH - 1), 0, COLORDEPTH - 1)):
      a valid palette index for every temperature, however far out of range. */
  function TempToIndex(t: real): (idx: int)
    ensures 0 <= idx <= ColorDepth - 1
  {
    var top := (ColorDepth - 1) as real;
    Trunc(Constrain(MapValue(t, MinTemp, MaxTemp, 0.0, top), 0.0, top))
  }

  /** MINTEMP and everything colder select the first entry; MAXTEMP and
      everything hotter select the last. */
  lemma TempToIndexSaturates(t: real)
    ensures t <= MinTemp ==> TempToIndex(t) == 0
    ensures MaxTemp <= t ==> TempToIndex(t) == ColorDepth - 1
  {
    var top := (ColorDepth - 1) as real;
    if t <= MinTemp {
      MapValueMonotone(t, MinTemp, MinTemp, MaxTemp, 0.0, top);
    }
    if MaxTemp <= t {
      MapValueMonotone(MaxTemp, t, MinTemp, MaxTemp, 0.0, top);
    }
  }

  /** A hotter reading never selects an earlier palette entry. */
  lemma TempToIndexMonotone(t1: real, t2: real)
    requires t1 <= t2
    ensures TempToIndex(t1) <= TempToIndex(t2)
  {
    var top := (ColorDepth - 1) as real;
    MapValueMonotone(t1, t2, MinTemp, MaxTemp, 0.0, top);
    var s1 := MapValue(t1, MinTemp, MaxTemp, 0.0, top);
    var s2 := MapValue(t2, MinTemp, MaxTemp, 0.0, top);
    ConstrainMonotone(s1, s2, 0.0, top);
    TruncMonotone(Constrain(s1, 0.0, top), Constrain(s2, 0.0, top));
  }

  /** 25 degrees in [20, 50] over 1000 entries: 5 / 30 * 999 = 166.5, truncated. */
  lemma TempToIndexAt25()
    ensures TempToIndex(25.0) == 166
  {
  }

  /** The list frame_to_rgb_pixels returns: slot i holds the colour of reading i,
      slots past the end of the readings keep their initial None. */
  function RenderedFrame(vals: seq<real>, cmap: seq<Rgb>): (out: seq<Option<Rgb>>)
    requires |vals| <= FrameSize && |cmap| == ColorDepth
    ensures |out| == FrameSize
    ensures forall i :: 0 <= i < |vals| ==> out[i].Some? && out[i].value == cmap[TempToIndex(vals[i])]
    ensures forall i :: |vals| <= i < FrameSize ==> out[i] == None
  {
    seq(FrameSize, i requires 0 <= i < FrameSize =>
      if i < |vals| then Some(cmap[TempToIndex(vals[i])]) else None)
  }

  /** A full frame renders to a list with a colour in every slot, each taken
      from the palette. */
  lemma FullFrameIsColoured(vals: seq<real>, cmap: seq<Rgb>, i: int)
    requires |vals| == FrameSize && IsPalette(cmap)
    requires 0 <= i < FrameSize
    ensures RenderedFrame(vals, cmap)[i].Some?
    ensures IsColour(RenderedFrame(vals, cmap)[i].value)
  {
    assert 0 <= TempToIndex(vals[i]) < |cmap|;
  }

  /** A frame of one uniform temperature renders to one uniform colour. */
  lemma UniformFrame(vals: seq<real>, cmap: seq<Rgb>, t: real)
    requires |vals| == FrameSize && |cmap| == ColorDepth
    requires forall i :: 0 <= i < |vals| ==> vals[i] == t
    ensures forall i :: 0 <= i < FrameSize ==> RenderedFrame(vals, cmap)[i] == Some(cmap[TempToIndex(t)])
  {
  }

  /** Renders readings into a freshly preallocated list of FrameSize slots,
      one enumerate step at a time. A list longer than FrameSize would make
      out[i] raise IndexError, so callers pass at most FrameSize readings. */
  method FrameToRgbPixels(frameVals: array<real>, colormap: seq<Rgb>) returns (out: array<Option<Rgb>>)
    requires frameVals.Length <= FrameSize && |colormap| == ColorDepth
    ensures fresh(out) && out.Length == FrameSize
    ensures forall i :: 0 <= i < frameVals.Length ==> out[i] == Some(colormap[TempToIndex(frameVals[i])])
    ensures forall i :: frameVals.Length <= i < FrameSize ==> out[i] == None
    ensures out[..] == RenderedFrame(frameVals[..], colormap)
  {
    out := new Option<Rgb>[FrameSize](_ => None);
    var i := 0;
    while i < frameVals.Length
      invariant 0 <= i <= frameVals.Length
      invariant forall k :: 0 <= k < i ==> out[k] == Some(colormap[TempToIndex(frameVals[k])])
      invariant forall k :: i <= k < FrameSize ==> out[k] == None
    {
      var idx := TempToIndex(frameVals[i]);
      out[i] := Some(colormap[idx]);
      i := i + 1;
    }
  }
}
