/** The overlay statistics of a frame: coldest, hottest and centre reading. */
module FrameStats {
  import opened Config

  datatype Stats = Stats(tmin: real, tmax: real, tcenter: real)

  /** (h // 2) * w + w // 2: the element at row h // 2, column w // 2 of a
      row-major w-by-h grid, always inside the grid. */
  function CentreIndex(w: int, h: int): (k: int)
    requires 0 < w && 0 < h
    ensures 0 <= k < w * h
    ensures k / w == h / 2 && k % w == w / 2
  {
    var row, col := h / 2, w / 2;
    RowStartBound(w, row, h - 1);
    DivModRow(w, row, col);
    row * w + col
  }

  lemma RowStartBound(w: int, row: int, lastRow: int)
    requires 0 < w && 0 <= row <= lastRow
    ensures row * w <= lastRow * w && lastRow * w + w == (lastRow + 1) * w
  {
  }

  lemma DivModRow(w: int, row: int, col: int)
    requires 0 < w && 0 <= row && 0 <= col < w
    ensures (row * w + col) / w == row && (row * w + col) % w == col
  {
    var n := row * w + col;
    var q, r := n / w, n % w;
    assert n == q * w + r && 0 <= r < w;
    var d := q - row;
    assert d * w == col - r;
    assert d == 0;
  }

  lemma SensorCentre()
    ensures CentreIndex(SrcW, SrcH) == 400
  {
  }

  /** min() of a non-empty list: an element no greater than any other. */
  function SeqMin(s: seq<real>): (m: real)
    requires |s| > 0
    ensures m in s
    ensures forall x :: x in s ==> m <= x
  {
    if |s| == 1 then s[0]
    else
      var rest := SeqMin(s[1..]);
      assert forall x :: x in s ==> x == s[0] || x in s[1..];
      if rest < s[0] then rest else s[0]
  }

  /** max() of a non-empty list: an element no smaller than any other. */
  function SeqMax(s: seq<real>): (m: real)
    requires |s| > 0
    ensures m in s
    ensures forall x :: x in s ==> x <= m
  {
    if |s| == 1 then s[0]
    else
      var rest := SeqMax(s[1..]);
      assert forall x :: x in s ==> x == s[0] || x in s[1..];
      if s[0] < rest then rest else s[0]
  }

  /** tmin, tmax and tcenter of one sensor frame; the centre reading always
      lies between the coldest and the hottest. */
  function Summarise(frame: seq<real>): (st: Stats)
    requires |frame| == FrameSize
    ensures st.tmin in frame && st.tmax in frame
    ensures forall x :: x in frame ==> st.tmin <= x <= st.tmax
    ensures st.tcenter == frame[CentreIndex(SrcW, SrcH)]
    ensures st.tmin <= st.tcenter <= st.tmax
  {
    var centre := frame[CentreIndex(SrcW, SrcH)];
    assert centre in frame;
    Stats(SeqMin(frame), SeqMax(frame), centre)
  }
}
