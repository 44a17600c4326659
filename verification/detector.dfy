/** The detector's records and state: the grayscale image, the scan
    parameters, the detector itself (the unpacked cascade plus the last
    scan's detections), and the faults the Rust code would panic with. */
module Detector {
  import opened Numeric

  /** A grayscale image: `ldim` is the row stride, `pixels` is row-major. */
  datatype Image = Image(ldim: int, ncols: nat, nrows: nat, pixels: seq<Byte>)

  /** Scan parameters, in the order `RunParams::new` takes them. Window sizes
      and factors are `f32` in the source and reals here. */
  datatype RunParams = RunParams(maxSize: real, minSize: real, scaleFactor: real, shiftFactor: real)

  /** One accepted window: centre row and column, window size and score. */
  datatype Detection = Detection(r: int, c: int, scale: real, q: real)

  /** The flat buffer an out-of-range index hit. */
  datatype Buffer = TCodes | TPreds | Thresh | Pixels

  /** Each way the source panics: a byte-slice past the end of the cascade
      buffer, an exponent whose power of two overflows a 32-bit `isize`,
      or an index outside one of the flat buffers. */
  datatype Fault =
    | SliceOutOfRange
    | PowOverflow(exponent: int)
    | IndexOutOfRange(buffer: Buffer)

  datatype Result<T> = Ok(value: T) | Err(fault: Fault)

  /** The detector. `tcodes` holds, per tree, `4 * tdepthSqr` code bytes
      addressed as an implicit heap; `tpreds` holds `tdepthSqr` leaf
      predictions per tree; `thresh` one rejection threshold per tree. */
  datatype Pico = Pico(
    tdepth: int,
    ntrees: int,
    tdepthSqr: int,
    tcodes: seq<Byte>,
    tpreds: seq<real>,
    thresh: seq<real>,
    detections: seq<Detection>)

  /** `Pico::new`: no trees, empty buffers. */
  function New(): Pico {
    Pico(0, 0, 0, [], [], [], [])
  }

  /** The largest depth whose `2^tdepth` fits in the 32-bit `isize` of the
      wasm32 target. */
  const MaxDepth: nat := 30

  /** Depth and leaf count agree, as every successful unpack leaves them. */
  predicate Shape(p: Pico) {
    0 <= p.tdepth <= MaxDepth && p.tdepthSqr == Pow2(p.tdepth)
  }

  /** Tree `t`'s code block, predictions and threshold all lie inside the
      flat buffers: tree `t` owns `tcodes[4*S*t .. 4*S*(t+1)]`,
      `tpreds[S*t .. S*(t+1)]` and `thresh[t]`, with S = `tdepthSqr`. */
  predicate TreeFits(p: Pico, t: int) {
    && 0 <= t
    && Times(4 * p.tdepthSqr, t + 1) <= |p.tcodes|
    && Times(p.tdepthSqr, t + 1) <= |p.tpreds|
    && t < |p.thresh|
  }

  /** The buffers hold at least the first `k` trees. */
  predicate Covers(p: Pico, k: int) {
    && Shape(p)
    && Iterations(k) <= |p.thresh|
    && forall t :: 0 <= t < k ==> TreeFits(p, t)
  }

  /** Every tree the cascade counts is present in the buffers. */
  predicate WellFormed(p: Pico) {
    Covers(p, p.ntrees)
  }

  /** Buffers long enough for `k` trees hold each of them. */
  lemma CoversFromLengths(p: Pico, k: int)
    requires Shape(p) && 0 <= k
    requires 4 * p.tdepthSqr * k <= |p.tcodes|
    requires p.tdepthSqr * k <= |p.tpreds|
    requires k <= |p.thresh|
    ensures Covers(p, k)
  {
    var s := p.tdepthSqr;
    forall t | 0 <= t < k
      ensures TreeFits(p, t)
    {
      MulLe(4 * s, t + 1, k);
      MulLe(s, t + 1, k);
      TimesIsProduct(4 * s, t + 1);
      TimesIsProduct(s, t + 1);
    }
  }
}
