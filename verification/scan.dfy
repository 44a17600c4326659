/** `Pico::run_cascade`: the multiscale sliding-window scan.

    The window size starts at `minSize` and is multiplied by `scaleFactor`
    while it does not exceed `maxSize`. At each size the scan walks a
    regular grid of window centres, `step` apart, inside a border of
    `Margin(scale)` pixels, classifies every window and keeps those with a
    positive score, in scan order.

    The reference definition lists the visited windows (`Windows`) and
    folds the classifier over them (`Collect`); the imperative
    `RunCascade` mirrors the source's three nested loops and is proved to
    compute the same result. */
module Scan {
  import opened Numeric
  import opened Detector
  import opened Classifier

  /** A window the scan visits: centre row, centre column, window size. */
  datatype Window = Window(r: int, c: int, scale: real)

  /** The window size grows from a positive start. */
  predicate Grows(params: RunParams) {
    params.minSize > 0.0 && params.scaleFactor > 1.0
  }

  /** A sufficient condition for the scale loop to end: either it never
      starts, or the window grows until it passes `maxSize`. Some other
      parameters also end the loop; some never do (`ScaleNeverPasses`). */
  predicate Terminates(params: RunParams) {
    params.minSize > params.maxSize || Grows(params)
  }

  /** The window size on pass `k` of the scale loop. */
  function ScaleAt(params: RunParams, k: nat): real {
    params.minSize * Pow(params.scaleFactor, k)
  }

  /** The grid step at a window size, `max(1, shiftFactor * scale) as i32`:
      at least one pixel and never more than the shifted window size. */
  function Step(params: RunParams, scale: real): (s: int)
    ensures s >= 1
    ensures s as real <= Max(1.0, params.shiftFactor * scale) < s as real + 1.0
  {
    Trunc(Max(1.0, params.shiftFactor * scale))
  }

  /** `x` is one of `lo, lo + step, ...` below `hi`, the values
      `(lo..hi).step_by(step)` yields. */
  predicate OnGrid(x: int, lo: int, hi: int, step: int)
    requires step >= 1
  {
    lo <= x < hi && (x - lo) % step == 0
  }

  /** The grid from `lo` is `lo` followed by the grid from `lo + step`. */
  lemma GridStep(x: int, lo: int, hi: int, step: int)
    requires step >= 1 && lo < hi
    ensures OnGrid(x, lo, hi, step) <==> x == lo || OnGrid(x, lo + step, hi, step)
  {
    ModShift(x - (lo + step), step);
    assert x - (lo + step) + step == x - lo;
    if lo < x < lo + step {
      assert (x - lo) % step == x - lo;
    }
  }

  /** The window's centre lies on the grid the scan walks at its size. */
  predicate OnScaleGrid(img: Image, params: RunParams, w: Window) {
    var m := Margin(w.scale);
    var step := Step(params, w.scale);
    OnGrid(w.r, m, img.nrows - m, step) && OnGrid(w.c, m, img.ncols - m, step)
  }

  /** Strict scan order: by size, then row, then column. */
  predicate Before(a: Window, b: Window) {
    || a.scale < b.scale
    || (a.scale == b.scale && a.r < b.r)
    || (a.scale == b.scale && a.r == b.r && a.c < b.c)
  }

  predicate Sorted(ws: seq<Window>) {
    forall i, j :: 0 <= i < j < |ws| ==> Before(ws[i], ws[j])
  }

  /** The windows of one grid row: centre row `r`, columns `c, c + step,
      ...` below `hi` (the innermost loop). */
  function RowWindows(r: int, c: int, hi: int, step: int, scale: real): (ws: seq<Window>)
    requires step >= 1
    decreases hi - c
  {
    if c >= hi then [] else [Window(r, c, scale)] + RowWindows(r, c + step, hi, step, scale)
  }

  /** The grid rows from row `r` on, at one window size (the middle loop). */
  function GridFrom(img: Image, params: RunParams, scale: real, r: int): (ws: seq<Window>)
    decreases img.nrows - Margin(scale) - r
  {
    var m := Margin(scale);
    var step := Step(params, scale);
    if r >= img.nrows - m then []
    else RowWindows(r, m, img.ncols - m, step, scale) + GridFrom(img, params, scale, r + step)
  }

  /** A bound on the number of passes of the scale loop, from Bernoulli's
      inequality: `minSize * f^k > maxSize` once `k` reaches it. */
  function ScaleBound(params: RunParams): int {
    if Grows(params) then
      ((params.maxSize / params.minSize - 1.0) / (params.scaleFactor - 1.0)).Floor + 1
    else 0
  }

  /** Every pass of the scale loop comes before `ScaleBound`. */
  lemma ScaleBoundHolds(params: RunParams, k: nat)
    requires Grows(params) && ScaleAt(params, k) <= params.maxSize
    ensures k < ScaleBound(params)
  {
    var f, lo, hi := params.scaleFactor, params.minSize, params.maxSize;
    var kk := k as real;
    Bernoulli(f, k);
    var pk := Pow(f, k);
    assert pk * lo <= hi;
    DivBound(pk, lo, hi);
    assert kk * (f - 1.0) <= hi / lo - 1.0;
    DivBound(kk, f - 1.0, hi / lo - 1.0);
  }

  /** Outside `Terminates` the scale loop may never end: when the first
      window fits and the factor lies in `[-1, 1]`, every pass keeps the
      window size at or below `maxSize`. */
  lemma ScaleNeverPasses(params: RunParams, k: nat)
    requires 0.0 < params.minSize <= params.maxSize
    requires -1.0 <= params.scaleFactor <= 1.0
    ensures !Terminates(params)
    ensures ScaleAt(params, k) <= params.maxSize
  {
    PowUnitInterval(params.scaleFactor, k);
    MulMonotone(params.minSize, 1.0, Pow(params.scaleFactor, k));
  }

  /** The window size strictly grows from pass to pass. */
  lemma ScaleAtIncreasing(params: RunParams, i: nat, j: nat)
    requires Grows(params) && i < j
    ensures 0.0 < ScaleAt(params, i) < ScaleAt(params, j)
  {
    PowMonotone(params.scaleFactor, i, j);
    var a, b := Pow(params.scaleFactor, i), Pow(params.scaleFactor, j);
    assert params.minSize * b - params.minSize * a == params.minSize * (b - a);
  }

  /** One pass of the scale loop multiplies the size by `scaleFactor`. */
  lemma ScaleAtNext(params: RunParams, k: nat, scale: real)
    requires scale == ScaleAt(params, k)
    ensures scale * params.scaleFactor == ScaleAt(params, k + 1)
  {
    var f := params.scaleFactor;
    assert Pow(f, k + 1) == f * Pow(f, k);
    assert params.minSize * (f * Pow(f, k)) == params.minSize * Pow(f, k) * f;
  }

  /** The windows of the scale loop from pass `k` on (the outer loop). */
  function ScalesFrom(img: Image, params: RunParams, k: nat): (ws: seq<Window>)
    requires Terminates(params) && (Grows(params) || k == 0)
    decreases ScaleBound(params) - k
  {
    var scale := ScaleAt(params, k);
    if scale > params.maxSize then []
    else
      ScaleBoundHolds(params, k);
      GridFrom(img, params, scale, Margin(scale)) + ScalesFrom(img, params, k + 1)
  }

  /** Every window the scan visits, in scan order. */
  function Windows(img: Image, params: RunParams): (ws: seq<Window>)
    requires Terminates(params)
    ensures params.minSize > params.maxSize ==> ws == []
  {
    ScalesFrom(img, params, 0)
  }

  /** What the scan asks of each window: its classifier score or the
      classifier's fault. The fold below is written for any such scorer;
      `run_cascade` uses `ScoreOf` the detector. */
  type Scorer = Window -> Result<real>

  /** `classify_region` of detector `p` on image `img`, window by window. */
  function ScoreOf(p: Pico, img: Image): Scorer {
    (w: Window) => Classify(p, img, w.r, w.c, w.scale)
  }

  /** Scores one window and appends an entry to `acc` when its score is
      positive. */
  function Visit(score: Scorer, w: Window, acc: seq<Detection>): (res: Result<seq<Detection>>)
    ensures res.Err? <==> score(w).Err?
    ensures res.Ok? ==> res.value == acc || res.value == acc + [Detection(w.r, w.c, w.scale, score(w).value)]
  {
    var q := score(w);
    if q.Err? then Err(q.fault)
    else if q.value > 0.0 then Ok(acc + [Detection(w.r, w.c, w.scale, q.value)])
    else Ok(acc)
  }

  /** Scores the windows `ws` in order, appending an entry to `acc` for
      each positive score; a fault ends the scan. */
  function Collect(score: Scorer, ws: seq<Window>, acc: seq<Detection>): (res: Result<seq<Detection>>)
    decreases |ws|
    ensures res.Ok? ==> acc <= res.value && |res.value| <= |acc| + |ws|
  {
    if ws == [] then Ok(acc)
    else
      var v := Visit(score, ws[0], acc);
      if v.Err? then v else Collect(score, ws[1..], v.value)
  }

  /** The detections of a scan that starts from an empty list. */
  function Scan(p: Pico, img: Image, params: RunParams): Result<seq<Detection>>
    requires Terminates(params)
  {
    Collect(ScoreOf(p, img), Windows(img, params), [])
  }

  /** The window a detection was found in. */
  function WindowOf(d: Detection): Window {
    Window(d.r, d.c, d.scale)
  }

  // ---------------------------------------------------------------------
  // Which windows the scan visits

  lemma {:induction false} RowWindowsMembership(r: int, c: int, hi: int, step: int, scale: real, w: Window)
    requires step >= 1
    decreases hi - c
    ensures w in RowWindows(r, c, hi, step, scale)
            <==> w.r == r && w.scale == scale && OnGrid(w.c, c, hi, step)
  {
    if c < hi {
      RowWindowsMembership(r, c + step, hi, step, scale, w);
      GridStep(w.c, c, hi, step);
    }
  }

  lemma {:induction false} GridFromMembership(img: Image, params: RunParams, scale: real, r: int, w: Window)
    decreases img.nrows - Margin(scale) - r
    ensures var m, step := Margin(scale), Step(params, scale);
            w in GridFrom(img, params, scale, r)
            <==> w.scale == scale && OnGrid(w.r, r, img.nrows - m, step) && OnGrid(w.c, m, img.ncols - m, step)
  {
    var m, step := Margin(scale), Step(params, scale);
    if r < img.nrows - m {
      RowWindowsMembership(r, m, img.ncols - m, step, scale, w);
      GridFromMembership(img, params, scale, r + step, w);
      GridStep(w.r, r, img.nrows - m, step);
    }
  }

  lemma {:induction false} ScalesFromMembership(img: Image, params: RunParams, k: nat, w: Window)
    requires Grows(params)
    decreases ScaleBound(params) - k
    ensures w in ScalesFrom(img, params, k)
            <==> (exists j: nat :: k <= j && ScaleAt(params, j) == w.scale && w.scale <= params.maxSize)
                 && OnScaleGrid(img, params, w)
  {
    var scale := ScaleAt(params, k);
    if scale > params.maxSize {
      forall j: nat | k <= j && ScaleAt(params, j) == w.scale
        ensures w.scale > params.maxSize
      {
        if k < j {
          ScaleAtIncreasing(params, k, j);
        }
      }
    } else {
      ScaleBoundHolds(params, k);
      GridFromMembership(img, params, scale, Margin(scale), w);
      ScalesFromMembership(img, params, k + 1, w);
      if (exists j: nat :: k <= j && ScaleAt(params, j) == w.scale && w.scale <= params.maxSize)
         && OnScaleGrid(img, params, w) && w !in GridFrom(img, params, scale, Margin(scale)) {
        var j: nat :| k <= j && ScaleAt(params, j) == w.scale && w.scale <= params.maxSize;
        assert j != k;
      }
    }
  }

  /** The scan visits exactly the grid windows of the sizes
      `minSize * scaleFactor^k` that do not exceed `maxSize`. */
  lemma WindowsMembership(img: Image, params: RunParams, w: Window)
    requires Grows(params)
    ensures w in Windows(img, params)
            <==> (exists k: nat :: ScaleAt(params, k) == w.scale && w.scale <= params.maxSize)
                 && OnScaleGrid(img, params, w)
  {
    ScalesFromMembership(img, params, 0, w);
  }

  /** Every visited window keeps its probes inside the image, given an
      image whose stride covers its width and whose buffer covers every
      row. */
  lemma WindowsSafe(img: Image, params: RunParams, w: Window)
    requires Terminates(params) && w in Windows(img, params)
    requires img.ncols <= img.ldim && img.ldim * img.nrows <= |img.pixels|
    ensures WindowSafe(img, w.r, w.c, w.scale)
  {
    TimesIsProduct(img.ldim, img.nrows);
    WindowsMembership(img, params, w);
    var k: nat :| ScaleAt(params, k) == w.scale && w.scale <= params.maxSize;
    if k > 0 {
      ScaleAtIncreasing(params, 0, k);
    } else {
      PowPositive(params.scaleFactor, 0);
    }
  }

  // ---------------------------------------------------------------------
  // Scan order

  lemma SortedAppend(a: seq<Window>, b: seq<Window>)
    requires Sorted(a) && Sorted(b)
    requires forall x, y :: x in a && y in b ==> Before(x, y)
    ensures Sorted(a + b)
  {
    forall i, j | 0 <= i < j < |a + b|
      ensures Before((a + b)[i], (a + b)[j])
    {
      if j < |a| {
      } else if i >= |a| {
        assert (a + b)[i] == b[i - |a|] && (a + b)[j] == b[j - |a|];
      } else {
        assert (a + b)[i] in a && (a + b)[j] in b;
      }
    }
  }

  lemma {:induction false} RowWindowsSorted(r: int, c: int, hi: int, step: int, scale: real)
    requires step >= 1
    decreases hi - c
    ensures Sorted(RowWindows(r, c, hi, step, scale))
  {
    if c < hi {
      var rest := RowWindows(r, c + step, hi, step, scale);
      RowWindowsSorted(r, c + step, hi, step, scale);
      forall y | y in rest
        ensures Before(Window(r, c, scale), y)
      {
        RowWindowsMembership(r, c + step, hi, step, scale, y);
      }
      SortedAppend([Window(r, c, scale)], rest);
    }
  }

  lemma {:induction false} GridFromSorted(img: Image, params: RunParams, scale: real, r: int)
    decreases img.nrows - Margin(scale) - r
    ensures Sorted(GridFrom(img, params, scale, r))
  {
    var m, step := Margin(scale), Step(params, scale);
    if r < img.nrows - m {
      var row := RowWindows(r, m, img.ncols - m, step, scale);
      var rest := GridFrom(img, params, scale, r + step);
      RowWindowsSorted(r, m, img.ncols - m, step, scale);
      GridFromSorted(img, params, scale, r + step);
      forall x, y | x in row && y in rest
        ensures Before(x, y)
      {
        RowWindowsMembership(r, m, img.ncols - m, step, scale, x);
        GridFromMembership(img, params, scale, r + step, y);
      }
      SortedAppend(row, rest);
    }
  }

  lemma {:induction false} ScalesFromSorted(img: Image, params: RunParams, k: nat)
    requires Grows(params)
    decreases ScaleBound(params) - k
    ensures Sorted(ScalesFrom(img, params, k))
  {
    var scale := ScaleAt(params, k);
    if scale <= params.maxSize {
      ScaleBoundHolds(params, k);
      var grid := GridFrom(img, params, scale, Margin(scale));
      var rest := ScalesFrom(img, params, k + 1);
      GridFromSorted(img, params, scale, Margin(scale));
      ScalesFromSorted(img, params, k + 1);
      forall x, y | x in grid && y in rest
        ensures Before(x, y)
      {
        GridFromMembership(img, params, scale, Margin(scale), x);
        ScalesFromMembership(img, params, k + 1, y);
        var j: nat :| k + 1 <= j && ScaleAt(params, j) == y.scale && y.scale <= params.maxSize;
        ScaleAtIncreasing(params, k, j);
      }
      SortedAppend(grid, rest);
    }
  }

  /** The scan visits windows in strictly increasing (size, row, column)
      order. */
  lemma WindowsSorted(img: Image, params: RunParams)
    requires Terminates(params)
    ensures Sorted(Windows(img, params))
  {
    if Grows(params) {
      ScalesFromSorted(img, params, 0);
    }
  }

  // ---------------------------------------------------------------------
  // The fold

  /** Folding over a concatenation folds over the first part, then over
      the second from where the first left off. */
  lemma {:induction false} CollectAppend(score: Scorer, a: seq<Window>, b: seq<Window>, acc: seq<Detection>)
    decreases |a|
    ensures var first := Collect(score, a, acc);
            Collect(score, a + b, acc) == if first.Err? then first else Collect(score, b, first.value)
  {
    if a != [] {
      assert (a + b)[0] == a[0] && (a + b)[1..] == a[1..] + b;
      var v := Visit(score, a[0], acc);
      if v.Ok? {
        CollectAppend(score, a[1..], b, v.value);
      }
    } else {
      assert a + b == b;
    }
  }

  /** The fold keeps exactly the windows with a positive score: a
      detection is in the result iff it was already in `acc` or its
      window is among `ws` and has that positive score. */
  lemma {:induction false} CollectExact(score: Scorer, ws: seq<Window>, acc: seq<Detection>, d: Detection)
    requires Collect(score, ws, acc).Ok?
    decreases |ws|
    ensures d in Collect(score, ws, acc).value
            <==> d in acc || (WindowOf(d) in ws && d.q > 0.0 && score(WindowOf(d)) == Ok(d.q))
  {
    if ws != [] {
      var w := ws[0];
      var acc' := Visit(score, w, acc).value;
      CollectExact(score, ws[1..], acc', d);
      assert WindowOf(d) in ws <==> WindowOf(d) == w || WindowOf(d) in ws[1..] by {
        assert ws == [w] + ws[1..];
      }
    }
  }

  /** Detections in strictly increasing window order. */
  predicate InScanOrder(ds: seq<Detection>) {
    forall i, j :: 0 <= i < j < |ds| ==> Before(WindowOf(ds[i]), WindowOf(ds[j]))
  }

  /** The fold emits detections in the order of their windows. */
  lemma {:induction false} CollectSorted(score: Scorer, ws: seq<Window>, acc: seq<Detection>)
    requires Collect(score, ws, acc).Ok?
    requires Sorted(ws) && InScanOrder(acc)
    requires forall x, y :: x in acc && y in ws ==> Before(WindowOf(x), y)
    decreases |ws|
    ensures InScanOrder(Collect(score, ws, acc).value)
  {
    if ws != [] {
      var w := ws[0];
      var v := Visit(score, w, acc);
      assert v.Ok? && Collect(score, ws, acc) == Collect(score, ws[1..], v.value);
      SortedTail(ws);
      if v.value != acc {
        assert w in ws;
        VisitAppends(acc, w, v.value, score(w).value);
      }
      CollectSorted(score, ws[1..], v.value);
    }
  }

  lemma SortedTail(ws: seq<Window>)
    requires Sorted(ws) && ws != []
    ensures Sorted(ws[1..])
    ensures forall y :: y in ws[1..] ==> y in ws && Before(ws[0], y)
  {
    forall y | y in ws[1..]
      ensures y in ws && Before(ws[0], y)
    {
      var i :| 0 <= i < |ws[1..]| && ws[1..][i] == y;
      assert ws[i + 1] == y;
    }
  }

  /** Appending the detection of the next window keeps the order. */
  lemma VisitAppends(acc: seq<Detection>, w: Window, acc': seq<Detection>, q: real)
    requires InScanOrder(acc)
    requires forall x :: x in acc ==> Before(WindowOf(x), w)
    requires acc' == acc + [Detection(w.r, w.c, w.scale, q)]
    ensures InScanOrder(acc')
    ensures forall x, y :: x in acc' && Before(w, y) ==> Before(WindowOf(x), y)
  {
    forall i, j | 0 <= i < j < |acc'|
      ensures Before(WindowOf(acc'[i]), WindowOf(acc'[j]))
    {
      if j == |acc| {
        assert acc'[i] == acc[i] && acc[i] in acc;
      } else {
        assert acc'[i] == acc[i] && acc'[j] == acc[j];
      }
    }
    forall x, y | x in acc' && Before(w, y)
      ensures Before(WindowOf(x), y)
    {
      if x !in acc {
        assert x == acc'[|acc|];
      }
    }
  }

  /** A fold over windows that all score without a fault does not fault. */
  lemma {:induction false} CollectSafe(score: Scorer, ws: seq<Window>, acc: seq<Detection>)
    requires forall w :: w in ws ==> score(w).Ok?
    decreases |ws|
    ensures Collect(score, ws, acc).Ok?
  {
    if ws != [] {
      assert forall y :: y in ws[1..] ==> y in ws;
      CollectSafe(score, ws[1..], Visit(score, ws[0], acc).value);
    }
  }

  // ---------------------------------------------------------------------
  // Properties of the scan

  /** A scan reports exactly the visited windows with a positive score,
      each with the classifier's score. */
  lemma ScanExact(p: Pico, img: Image, params: RunParams, d: Detection)
    requires Terminates(params) && Scan(p, img, params).Ok?
    ensures d in Scan(p, img, params).value
            <==> WindowOf(d) in Windows(img, params) && d.q > 0.0
                 && Classify(p, img, d.r, d.c, d.scale) == Ok(d.q)
  {
    CollectExact(ScoreOf(p, img), Windows(img, params), [], d);
  }

  /** A scan reports its detections in strictly increasing (size, row,
      column) order. */
  lemma ScanOrdered(p: Pico, img: Image, params: RunParams)
    requires Terminates(params) && Scan(p, img, params).Ok?
    ensures InScanOrder(Scan(p, img, params).value)
  {
    WindowsSorted(img, params);
    CollectSorted(ScoreOf(p, img), Windows(img, params), []);
  }

  /** On a well-formed detector with at least one tree and an image whose
      stride and buffer cover it, the scan never faults. */
  lemma ScanSafe(p: Pico, img: Image, params: RunParams)
    requires Terminates(params)
    requires WellFormed(p) && p.ntrees >= 1
    requires img.ncols <= img.ldim && img.ldim * img.nrows <= |img.pixels|
    ensures Scan(p, img, params).Ok?
  {
    forall w | w in Windows(img, params)
      ensures ScoreOf(p, img)(w).Ok?
    {
      WindowsSafe(img, params, w);
      ClassifySafe(p, img, w.r, w.c, w.scale);
    }
    CollectSafe(ScoreOf(p, img), Windows(img, params), []);
  }

  /** The detections of a successful scan have positive scores, centres
      inside the margin and sizes the scale loop visits. */
  lemma ScanBounds(p: Pico, img: Image, params: RunParams)
    requires Grows(params) && Scan(p, img, params).Ok?
    ensures forall d :: d in Scan(p, img, params).value ==>
              && d.q > 0.0
              && Margin(d.scale) <= d.r < img.nrows - Margin(d.scale)
              && Margin(d.scale) <= d.c < img.ncols - Margin(d.scale)
              && (exists k: nat :: ScaleAt(params, k) == d.scale && d.scale <= params.maxSize)
  {
    forall d | d in Scan(p, img, params).value
      ensures d.q > 0.0
      ensures Margin(d.scale) <= d.r < img.nrows - Margin(d.scale)
      ensures Margin(d.scale) <= d.c < img.ncols - Margin(d.scale)
      ensures exists k: nat :: ScaleAt(params, k) == d.scale && d.scale <= params.maxSize
    {
      ScanExact(p, img, params, d);
      WindowsMembership(img, params, WindowOf(d));
    }
  }

  /** A detector fresh from `Pico::new` holds no trees, so its classifier
      faults on the final threshold lookup: a scan with it succeeds only
      when it visits no window at all. */
  lemma FreshScan(img: Image, params: RunParams)
    requires Terminates(params)
    ensures Scan(New(), img, params).Ok? <==> Windows(img, params) == []
  {
  }

  // ---------------------------------------------------------------------
  // The loops of `run_cascade`

  /** Scanning from column `c` of a row is scoring window `c`, then
      scanning the rest of the row from where it left off. */
  lemma RowStep(score: Scorer, r: int, c: int, hi: int, step: int, scale: real, acc: seq<Detection>, v: Result<seq<Detection>>)
    requires step >= 1 && c < hi
    requires v == Visit(score, Window(r, c, scale), acc)
    ensures v.Err? ==> Collect(score, RowWindows(r, c, hi, step, scale), acc) == v
    ensures v.Ok? ==> Collect(score, RowWindows(r, c, hi, step, scale), acc)
                      == Collect(score, RowWindows(r, c + step, hi, step, scale), v.value)
  {
    var rest := RowWindows(r, c + step, hi, step, scale);
    assert RowWindows(r, c, hi, step, scale) == [Window(r, c, scale)] + rest;
    assert ([Window(r, c, scale)] + rest)[0] == Window(r, c, scale);
    assert ([Window(r, c, scale)] + rest)[1..] == rest;
  }

  /** Scanning from grid row `r` is scanning row `r`, then the rows
      below it from where row `r` left off. */
  lemma GridRowStep(score: Scorer, img: Image, params: RunParams, scale: real, r: int, acc: seq<Detection>, row: Result<seq<Detection>>)
    requires r < img.nrows - Margin(scale)
    requires row == Collect(score, RowWindows(r, Margin(scale), img.ncols - Margin(scale), Step(params, scale), scale), acc)
    ensures row.Err? ==> Collect(score, GridFrom(img, params, scale, r), acc) == row
    ensures row.Ok? ==> Collect(score, GridFrom(img, params, scale, r), acc)
                        == Collect(score, GridFrom(img, params, scale, r + Step(params, scale)), row.value)
  {
    var m, step := Margin(scale), Step(params, scale);
    assert GridFrom(img, params, scale, r)
           == RowWindows(r, m, img.ncols - m, step, scale) + GridFrom(img, params, scale, r + step);
    CollectAppend(score, RowWindows(r, m, img.ncols - m, step, scale), GridFrom(img, params, scale, r + step), acc);
  }

  /** Scanning from pass `k` of the scale loop is scanning its grid, then
      the later passes from where it left off. */
  lemma ScaleStep(score: Scorer, img: Image, params: RunParams, k: nat, acc: seq<Detection>, grid: Result<seq<Detection>>)
    requires Terminates(params) && (Grows(params) || k == 0)
    requires ScaleAt(params, k) <= params.maxSize
    requires grid == Collect(score, GridFrom(img, params, ScaleAt(params, k), Margin(ScaleAt(params, k))), acc)
    ensures Grows(params) && k < ScaleBound(params)
    ensures grid.Err? ==> Collect(score, ScalesFrom(img, params, k), acc) == grid
    ensures grid.Ok? ==> Collect(score, ScalesFrom(img, params, k), acc)
                         == Collect(score, ScalesFrom(img, params, k + 1), grid.value)
  {
    ScaleBoundHolds(params, k);
    var scale := ScaleAt(params, k);
    CollectAppend(score, GridFrom(img, params, scale, Margin(scale)), ScalesFrom(img, params, k + 1), acc);
  }

  /** The innermost loop of `run_cascade`: one grid row. */
  method ScanRow(score: Scorer, r: int, lo: int, hi: int, step: int, scale: real, acc: seq<Detection>)
    returns (res: Result<seq<Detection>>)
    requires step >= 1
    ensures res == Collect(score, RowWindows(r, lo, hi, step, scale), acc)
  {
    var dets := acc;
    var c := lo;
    while c < hi
      invariant Collect(score, RowWindows(r, c, hi, step, scale), dets)
                == Collect(score, RowWindows(r, lo, hi, step, scale), acc)
      decreases hi - c
    {
      var v := Visit(score, Window(r, c, scale), dets);
      RowStep(score, r, c, hi, step, scale, dets, v);
      if v.Err? {
        return v;
      }
      dets := v.value;
      c := c + step;
    }
    return Ok(dets);
  }

  /** The middle loop of `run_cascade`: every grid row at one window size. */
  method ScanGrid(score: Scorer, img: Image, params: RunParams, scale: real, acc: seq<Detection>)
    returns (res: Result<seq<Detection>>)
    ensures res == Collect(score, GridFrom(img, params, scale, Margin(scale)), acc)
  {
    var step := Step(params, scale);
    var offset := Margin(scale);
    var dets := acc;
    var r := offset;
    while r < img.nrows - offset
      invariant Collect(score, GridFrom(img, params, scale, r), dets)
                == Collect(score, GridFrom(img, params, scale, offset), acc)
      decreases img.nrows - offset - r
    {
      var row := ScanRow(score, r, offset, img.ncols - offset, step, scale, dets);
      GridRowStep(score, img, params, scale, r, dets, row);
      if row.Err? {
        return row;
      }
      dets := row.value;
      r := r + step;
    }
    return Ok(dets);
  }

  /** `Pico::run_cascade`: resets the detections, then scans every window
      size from `minSize` up to `maxSize` with the detector's classifier. A
      classifier fault aborts the scan. */
  method RunCascade(p: Pico, img: Image, params: RunParams) returns (res: Result<Pico>)
    requires Terminates(params)
    ensures res.Ok? <==> Scan(p, img, params).Ok?
    ensures res.Ok? ==> res.value == p.(detections := Scan(p, img, params).value)
    ensures res.Err? ==> res.fault == Scan(p, img, params).fault
  {
    var score := ScoreOf(p, img);
    var dets: seq<Detection> := [];
    var scale := params.minSize;
    ghost var k: nat := 0;
    assert scale == ScaleAt(params, 0);
    while scale <= params.maxSize
      invariant scale == ScaleAt(params, k)
      invariant Grows(params) || k == 0
      invariant Collect(score, ScalesFrom(img, params, k), dets) == Scan(p, img, params)
      decreases ScaleBound(params) - k
    {
      var grid := ScanGrid(score, img, params, scale, dets);
      ScaleStep(score, img, params, k, dets, grid);
      if grid.Err? {
        return Err(grid.fault);
      }
      dets := grid.value;
      ScaleAtNext(params, k, scale);
      scale := scale * params.scaleFactor;
      k := k + 1;
    }
    return Ok(p.(detections := dets));
  }
}
