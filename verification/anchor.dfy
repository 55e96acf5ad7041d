/** One anchor record of the registry: its 16-bit address, the three-slot
    window of distance readings and the latest signal strength.
    Floating-point values are modelled as exact reals. */
module Anchor {

  /** An unsigned 16-bit anchor address; 0 is reserved as "no address". */
  type Addr = x: int | 0 <= x < 0x1_0000

  const NoAddr: Addr := 0

  /** The `range[3]` array of a record: `latest` is range[0] (the smoothed
      estimate the export reports), `prior` is range[1], `oldest` range[2]. */
  datatype Window = Window(latest: real, prior: real, oldest: real)

  const ZeroWindow: Window := Window(0.0, 0.0, 0.0)

  datatype Record = Record(addr: Addr, range: Window, dbm: real)

  /** The record `add_link` allocates for `addr`. */
  function NewRecord(addr: Addr): (r: Record)
    ensures r.addr == addr
    ensures r.range.latest == 0.0 && r.range.prior == 0.0 && r.range.oldest == 0.0
    ensures r.dbm == 0.0
  {
    Record(addr, ZeroWindow, 0.0)
  }

  /** The smoothing step of `fresh_link`: the slots are shifted first and
      the new estimate is then averaged over the sample and the two
      shifted slots. */
  function Smooth(w: Window, sample: real): (w': Window)
    ensures w'.oldest == w.prior
    ensures w'.prior == w.latest
    ensures w'.latest == (sample + w.latest + w.prior) / 3.0
  {
    var shifted := w.(oldest := w.prior).(prior := w.latest);
    shifted.(latest := (sample + shifted.prior + shifted.oldest) / 3.0)
  }

  /** A record after one measurement: the window is smoothed, the signal
      strength is overwritten, the address is kept. */
  function Refresh(r: Record, sample: real, dbm: real): (r': Record)
    ensures r'.addr == r.addr
    ensures r'.range == Smooth(r.range, sample)
    ensures r'.dbm == dbm
  {
    r.(range := Smooth(r.range, sample), dbm := dbm)
  }

  predicate Within(w: Window, lo: real, hi: real)
  {
    lo <= w.latest <= hi && lo <= w.prior <= hi && lo <= w.oldest <= hi
  }

  /** Smoothing is a mean: readings inside a band keep the window inside it. */
  lemma SmoothStaysWithin(w: Window, sample: real, lo: real, hi: real)
    requires Within(w, lo, hi) && lo <= sample <= hi
    ensures Within(Smooth(w, sample), lo, hi)
  {
  }

  /** Three readings d, e, f applied to a fresh window, as worked out by hand:
      [d/3, 0, 0], then [(e + d/3)/3, d/3, 0], then
      [(f + (e + d/3)/3 + d/3)/3, (e + d/3)/3, d/3]. */
  lemma ThreeReadingsFromZero(d: real, e: real, f: real)
    ensures Smooth(ZeroWindow, d) == Window(d / 3.0, 0.0, 0.0)
    ensures Smooth(Smooth(ZeroWindow, d), e) == Window((e + d / 3.0) / 3.0, d / 3.0, 0.0)
    ensures Smooth(Smooth(Smooth(ZeroWindow, d), e), f)
         == Window((f + (e + d / 3.0) / 3.0 + d / 3.0) / 3.0, (e + d / 3.0) / 3.0, d / 3.0)
  {
  }
}
