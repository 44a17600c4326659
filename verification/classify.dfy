/** `Pico::classify_region`: evaluation of the tree cascade on one window.

    Each tree is a complete binary tree of depth `tdepth` stored as an
    implicit heap (root at 1, children of `idx` at `2*idx` and `2*idx + 1`,
    slot 0 unused). Node `idx` of the tree whose block starts at `root` owns
    the four code bytes `tcodes[root + 4*idx .. root + 4*idx + 4]`: two
    signed (row, column) offsets, one per probe pixel. */
module Classifier {
  import opened Numeric
  import opened Detector

  /** The scan's border for a window size, `(scale / 2.0 + 1.0) as i32`. It
      exceeds half the window, so every probe of a window centred at least
      this far from the image edge lands inside the image. */
  function Margin(scale: real): (m: int)
    ensures scale > 0.0 ==> 1 <= m && scale / 2.0 < m as real <= scale / 2.0 + 1.0
  {
    Trunc(scale / 2.0 + 1.0)
  }

  /** One probe coordinate, `(x + off as i8 as f32 * scale) as i32 >> 8`,
      where `fixed` is the window centre times 256. The arithmetic shift by
      8 is floor division by 256, which is what `/` computes for a positive
      divisor. */
  function ProbeCoord(fixed: int, off: Byte, scale: real): int {
    Trunc(fixed as real + TimesReal(scale, AsI8(off))) / 256
  }

  /** The pixel a probe reads: `row * ldim + col`. */
  function PixelIndex(img: Image, fr: int, fc: int, scale: real, offR: Byte, offC: Byte): int {
    Times(img.ldim, ProbeCoord(fr, offR, scale)) + ProbeCoord(fc, offC, scale)
  }

  /** One descent step at heap node `idx`: reads the node's four code
      bytes, compares the two probe pixels and moves to the right child
      `2*idx + 1` when the left probe is not brighter, else to the left
      child `2*idx`. */
  function Child(p: Pico, img: Image, fr: int, fc: int, scale: real, root: int, idx: int): (r: Result<int>)
    ensures r.Ok? ==> 2 * idx <= r.value <= 2 * idx + 1
    ensures r.Err? ==> r.fault == IndexOutOfRange(TCodes) || r.fault == IndexOutOfRange(Pixels)
  {
    var k := root + 4 * idx;
    if !(0 <= k && k + 4 <= |p.tcodes|) then Err(IndexOutOfRange(TCodes))
    else
      var left := PixelIndex(img, fr, fc, scale, p.tcodes[k], p.tcodes[k + 1]);
      var right := PixelIndex(img, fr, fc, scale, p.tcodes[k + 2], p.tcodes[k + 3]);
      if !(0 <= left < |img.pixels|) || !(0 <= right < |img.pixels|) then Err(IndexOutOfRange(Pixels))
      else Ok(2 * idx + (if img.pixels[left] <= img.pixels[right] then 1 else 0))
  }

  /** The descent loop of one tree: `steps` steps from heap node `idx`. */
  function Descend(p: Pico, img: Image, fr: int, fc: int, scale: real, root: int, idx: int, steps: int): (r: Result<int>)
    decreases steps
    ensures r.Err? ==> r.fault == IndexOutOfRange(TCodes) || r.fault == IndexOutOfRange(Pixels)
  {
    if steps <= 0 then Ok(idx)
    else
      match Child(p, img, fr, fc, scale, root, idx)
      case Err(e) => Err(e)
      case Ok(child) => Descend(p, img, fr, fc, scale, root, child, steps - 1)
  }

  /** A descent that completes ends in the subtree interval of `idx` at
      depth `steps`, so from the root (`idx == 1`) it ends on one of the
      `2^steps` leaves `[2^steps, 2^(steps+1))`. */
  lemma {:induction false} DescendInterval(p: Pico, img: Image, fr: int, fc: int, scale: real, root: int, idx: int, steps: int)
    decreases steps
    ensures var d := Descend(p, img, fr, fc, scale, root, idx, steps);
            d.Ok? ==> idx * Pow2(Iterations(steps)) <= d.value < (idx + 1) * Pow2(Iterations(steps))
  {
    if steps > 0 {
      var ch := Child(p, img, fr, fc, scale, root, idx);
      if ch.Ok? {
        DescendInterval(p, img, fr, fc, scale, root, ch.value, steps - 1);
        var d := Descend(p, img, fr, fc, scale, root, ch.value, steps - 1);
        if d.Ok? {
          HeapStep(idx, ch.value, d.value, Pow2(steps - 1));
        }
      }
    }
  }

  /** If `leaf` lies in the depth-(n-1) interval of `child`, a child of
      `idx`, then it lies in the depth-n interval of `idx`. */
  lemma HeapStep(idx: int, child: int, leaf: int, half: int)
    requires half >= 1
    requires 2 * idx <= child <= 2 * idx + 1
    requires child * half <= leaf < (child + 1) * half
    ensures idx * (2 * half) <= leaf < (idx + 1) * (2 * half)
  {
    MulLe(half, 2 * idx, child);
    MulLe(half, child + 1, 2 * idx + 2);
    assert half * (2 * idx) == idx * (2 * half);
    assert half * (2 * idx + 2) == (idx + 1) * (2 * half);
  }

  /** Where tree `i` (code block at `root`) finds its prediction:
      `tdepthSqr * i + leaf - tdepthSqr`. */
  function PredIndex(p: Pico, img: Image, fr: int, fc: int, scale: real, i: int, root: int): (r: Result<int>)
    ensures r.Ok? ==> 0 <= r.value < |p.tpreds|
  {
    match Descend(p, img, fr, fc, scale, root, 1, p.tdepth)
    case Err(e) => Err(e)
    case Ok(leaf) =>
      var j := Times(p.tdepthSqr, i) + leaf - p.tdepthSqr;
      if 0 <= j < |p.tpreds| then Ok(j) else Err(IndexOutOfRange(TPreds))
  }

  /** The loop state between trees: before tree `i`, every earlier tree has
      been passed, so the running sum `o` exceeds the previous threshold. */
  predicate Passed(p: Pico, i: int, o: real) {
    i == 0 || (1 <= i <= p.ntrees && i - 1 < |p.thresh| && p.thresh[i - 1] < o)
  }

  /** The tree loop from tree `i`, with the current tree's code block at
      `root` and running sum `o`. */
  function EvalTrees(p: Pico, img: Image, fr: int, fc: int, scale: real, i: int, root: int, o: real): (r: Result<real>)
    requires 0 <= i
    requires Passed(p, i, o)
    decreases p.ntrees - i
    ensures r.Ok? ==> r.value == -1.0 || r.value > 0.0
  {
    if i >= p.ntrees then
      var last := p.ntrees - 1;
      if 0 <= last < |p.thresh| then Ok(o - p.thresh[last]) else Err(IndexOutOfRange(Thresh))
    else
      match PredIndex(p, img, fr, fc, scale, i, root)
      case Err(e) => Err(e)
      case Ok(j) =>
        var o' := o + p.tpreds[j];
        if i >= |p.thresh| then Err(IndexOutOfRange(Thresh))
        else if o' <= p.thresh[i] then Ok(-1.0)
        else EvalTrees(p, img, fr, fc, scale, i + 1, root + 4 * p.tdepthSqr, o')
  }

  /** `Pico::classify_region` at window centre `(r, c)` of size `scale`: a
      positive score accepts the window, `-1.0` rejects it. With no trees
      the final `thresh[ntrees - 1]` is out of range and the call panics. */
  function Classify(p: Pico, img: Image, r: int, c: int, scale: real): (res: Result<real>)
    ensures res.Ok? ==> res.value == -1.0 || res.value > 0.0
    ensures p.ntrees <= 0 ==> res == Err(IndexOutOfRange(Thresh))
  {
    EvalTrees(p, img, 256 * r, 256 * c, scale, 0, 0, 0.0)
  }

  /** The window is a candidate the scan can produce: positive size,
      centre at least the margin away from every edge, and an image whose
      stride covers its width and whose buffer covers every row. */
  predicate WindowSafe(img: Image, r: int, c: int, scale: real) {
    && scale > 0.0
    && Margin(scale) <= r < img.nrows - Margin(scale)
    && Margin(scale) <= c < img.ncols - Margin(scale)
    && img.ncols <= img.ldim
    && Times(img.ldim, img.nrows) <= |img.pixels|
  }

  /** A probe from a centre inside the margin stays inside `[0, n)`, for
      every signed offset byte. */
  lemma ProbeInRange(x: int, n: int, off: Byte, scale: real)
    requires scale > 0.0
    requires Margin(scale) <= x < n - Margin(scale)
    ensures 0 <= ProbeCoord(256 * x, off, scale) < n
  {
    var d := TimesReal(scale, AsI8(off));
    OffsetBounds(off, scale);
    CentreBounds(x, n, scale, d);
    var t := Trunc((256 * x) as real + d);
    assert 0 <= t < 256 * (n - 1);
  }

  /** An offset byte moves a probe by at most 128 window units either way. */
  lemma OffsetBounds(off: Byte, scale: real)
    requires scale > 0.0
    ensures -128.0 * scale <= TimesReal(scale, AsI8(off)) <= 127.0 * scale
  {
    var a := AsI8(off) as real;
    TimesRealIsProduct(scale, AsI8(off));
    MulMonotone(scale, a, -128.0);
    MulMonotone(scale, 127.0, a);
    assert a * scale == scale * a;
    assert scale * -128.0 == -128.0 * scale;
    assert scale * 127.0 == 127.0 * scale;
    assert -128.0 * scale <= a * scale <= 127.0 * scale;
    assert TimesReal(scale, AsI8(off)) == a * scale;
  }

  /** The fixed-point probe position of a centre inside the margin, moved by
      at most half a window, stays strictly inside the first `n - 1` pixels. */
  lemma CentreBounds(x: int, n: int, scale: real, d: real)
    requires scale > 0.0
    requires Margin(scale) <= x < n - Margin(scale)
    requires -128.0 * scale <= d <= 127.0 * scale
    ensures 0.0 < (256 * x) as real + d < (256 * (n - 1)) as real
  {
    var m := Margin(scale);
    assert scale / 2.0 < m as real;
    assert (256 * x) as real + d >= 256.0 * (x as real - scale / 2.0);
    assert (256 * x) as real + d < 256.0 * (x as real + scale / 2.0);
    assert x + m <= n - 1;
  }

  /** Both probes of every node read inside the pixel buffer. */
  lemma PixelInRange(img: Image, r: int, c: int, scale: real, offR: Byte, offC: Byte)
    requires WindowSafe(img, r, c, scale)
    ensures 0 <= PixelIndex(img, 256 * r, 256 * c, scale, offR, offC) < |img.pixels|
  {
    var pr := ProbeCoord(256 * r, offR, scale);
    var pc := ProbeCoord(256 * c, offC, scale);
    ProbeInRange(r, img.nrows, offR, scale);
    ProbeInRange(c, img.ncols, offC, scale);
    TimesNonneg(img.ldim, pr);
    TimesStep(img.ldim, pr);
    TimesMonotone(img.ldim, pr + 1, img.nrows);
  }

  /** A node below `tdepthSqr`, in a tree whose code block fits the
      buffer, over a safe window, is read without going out of range. */
  lemma ChildSafe(p: Pico, img: Image, r: int, c: int, scale: real, root: int, idx: int)
    requires WindowSafe(img, r, c, scale)
    requires 0 <= root && 1 <= idx < p.tdepthSqr
    requires root + 4 * p.tdepthSqr <= |p.tcodes|
    ensures Child(p, img, 256 * r, 256 * c, scale, root, idx).Ok?
  {
    var k := root + 4 * idx;
    PixelInRange(img, r, c, scale, p.tcodes[k], p.tcodes[k + 1]);
    PixelInRange(img, r, c, scale, p.tcodes[k + 2], p.tcodes[k + 3]);
  }

  /** A descent whose whole subtree lies below heap slot `2 * tdepthSqr`
      only reads nodes below `tdepthSqr`, so it never goes out of range. */
  lemma {:induction false} DescendSafe(p: Pico, img: Image, r: int, c: int, scale: real, root: int, idx: int, steps: nat)
    requires WindowSafe(img, r, c, scale)
    requires 0 <= root && 1 <= idx
    requires (idx + 1) * Pow2(steps) <= 2 * p.tdepthSqr
    requires root + 4 * p.tdepthSqr <= |p.tcodes|
    ensures Descend(p, img, 256 * r, 256 * c, scale, root, idx, steps).Ok?
    decreases steps
  {
    if steps > 0 {
      var half := Pow2(steps - 1);
      SubtreeBelow(idx, 2 * idx, half, p.tdepthSqr);
      ChildSafe(p, img, r, c, scale, root, idx);
      var child := Child(p, img, 256 * r, 256 * c, scale, root, idx).value;
      SubtreeBelow(idx, child, half, p.tdepthSqr);
      DescendSafe(p, img, r, c, scale, root, child, steps - 1);
    }
  }

  /** The heap arithmetic behind `DescendSafe`: if the depth-n subtree of
      `idx` ends below `2 * s`, then `idx` itself is below `s` and the
      depth-(n-1) subtree of either child also ends below `2 * s`. */
  lemma SubtreeBelow(idx: int, child: int, half: int, s: int)
    requires half >= 1 && 1 <= idx
    requires 2 * idx <= child <= 2 * idx + 1
    requires (idx + 1) * (2 * half) <= 2 * s
    ensures idx + 1 <= s
    ensures (child + 1) * half <= 2 * s
  {
    MulLe(idx + 1, 1, half);
    MulLe(half, child + 1, 2 * idx + 2);
    assert half * (2 * idx + 2) == (idx + 1) * (2 * half);
    assert (child + 1) * half == half * (child + 1);
  }

  /** The leaf tree `t` reaches for the window, as an index into `tpreds`:
      `tdepthSqr * t + leaf - tdepthSqr`, which lies in tree `t`'s own
      block of predictions. */
  function LeafIndex(p: Pico, img: Image, r: int, c: int, scale: real, t: int): (j: int)
    requires Shape(p) && TreeFits(p, t) && WindowSafe(img, r, c, scale)
    ensures 0 <= Times(p.tdepthSqr, t) <= j < Times(p.tdepthSqr, t + 1) <= |p.tpreds|
  {
    PredIndexSafe(p, img, r, c, scale, t);
    PredIndex(p, img, 256 * r, 256 * c, scale, t, Times(4 * p.tdepthSqr, t)).value
  }

  lemma PredIndexSafe(p: Pico, img: Image, r: int, c: int, scale: real, t: int)
    requires Shape(p) && TreeFits(p, t) && WindowSafe(img, r, c, scale)
    ensures var j := PredIndex(p, img, 256 * r, 256 * c, scale, t, Times(4 * p.tdepthSqr, t));
            j.Ok? && 0 <= Times(p.tdepthSqr, t) <= j.value < Times(p.tdepthSqr, t + 1)
  {
    var s := p.tdepthSqr;
    var root := Times(4 * s, t);
    TimesNonneg(4 * s, t);
    TimesNonneg(s, t);
    TimesStep(4 * s, t);
    TimesStep(s, t);
    assert Pow2(Iterations(p.tdepth)) == s;
    DescendSafe(p, img, r, c, scale, root, 1, p.tdepth);
    DescendInterval(p, img, 256 * r, 256 * c, scale, root, 1, p.tdepth);
    var leaf := Descend(p, img, 256 * r, 256 * c, scale, root, 1, p.tdepth).value;
    assert s <= leaf < 2 * s;
  }

  /** The prediction tree `t` contributes for the window. */
  function Leaf(p: Pico, img: Image, r: int, c: int, scale: real, t: int): real
    requires Shape(p) && TreeFits(p, t) && WindowSafe(img, r, c, scale)
  {
    p.tpreds[LeafIndex(p, img, r, c, scale, t)]
  }

  /** The predictions the first `n` trees contribute for the window, in
      tree order. */
  function Leaves(p: Pico, img: Image, r: int, c: int, scale: real, n: int): (ls: seq<real>)
    requires Covers(p, n) && 0 <= n && WindowSafe(img, r, c, scale)
    ensures |ls| == n
    decreases n
  {
    if n == 0 then [] else Leaves(p, img, r, c, scale, n - 1) + [Leaf(p, img, r, c, scale, n - 1)]
  }

  /** Entry `t` of `Leaves` is the prediction stored at the leaf tree `t`
      reaches, inside tree `t`'s own block of `tpreds`. */
  lemma {:induction false} LeavesAt(p: Pico, img: Image, r: int, c: int, scale: real, n: int, t: int)
    requires Covers(p, n) && 0 <= t < n && WindowSafe(img, r, c, scale)
    ensures Leaves(p, img, r, c, scale, n)[t] == p.tpreds[LeafIndex(p, img, r, c, scale, t)]
    decreases n
  {
    if t < n - 1 {
      LeavesAt(p, img, r, c, scale, n - 1, t);
    }
  }

  // ---------------------------------------------------------------------
  // The cascade over per-tree predictions

  /** The running sum after the first `k` trees. */
  function PrefixSum(ls: seq<real>, k: int): real
    requires 0 <= k <= |ls|
    decreases k
  {
    if k == 0 then 0.0 else PrefixSum(ls, k - 1) + ls[k - 1]
  }

  /** Tree `t` prunes: the running sum after it is at or below its
      threshold. */
  predicate Prunes(ls: seq<real>, th: seq<real>, t: int)
    requires 0 <= t < |ls| && t < |th|
  {
    PrefixSum(ls, t + 1) <= th[t]
  }

  /** The window survives the first `k` trees: none of them prunes. */
  predicate Survives(ls: seq<real>, th: seq<real>, k: int)
    requires 0 <= k <= |ls| && k <= |th|
    decreases k
  {
    k == 0 || (Survives(ls, th, k - 1) && !Prunes(ls, th, k - 1))
  }

  /** Surviving `k` trees is surviving each of them. */
  lemma {:induction false} SurvivesEach(ls: seq<real>, th: seq<real>, k: int)
    requires 0 <= k <= |ls| && k <= |th|
    ensures Survives(ls, th, k) <==> forall t :: 0 <= t < k ==> !Prunes(ls, th, t)
  {
    if Survives(ls, th, k) {
      forall t | 0 <= t < k
        ensures !Prunes(ls, th, t)
      {
        SurvivesAt(ls, th, k, t);
      }
    } else if forall t :: 0 <= t < k ==> !Prunes(ls, th, t) {
      SurvivesFromEach(ls, th, k);
    }
  }

  lemma {:induction false} SurvivesAt(ls: seq<real>, th: seq<real>, k: int, t: int)
    requires 0 <= t < k <= |ls| && k <= |th|
    requires Survives(ls, th, k)
    ensures !Prunes(ls, th, t)
    decreases k
  {
    if t < k - 1 {
      SurvivesAt(ls, th, k - 1, t);
    }
  }

  lemma {:induction false} SurvivesFromEach(ls: seq<real>, th: seq<real>, k: int)
    requires 0 <= k <= |ls| && k <= |th|
    requires forall t :: 0 <= t < k ==> !Prunes(ls, th, t)
    ensures Survives(ls, th, k)
    decreases k
  {
    if k > 0 {
      SurvivesFromEach(ls, th, k - 1);
    }
  }

  /** A pruning tree `w` has a first pruning tree at or before it. */
  lemma FirstPrune(ls: seq<real>, th: seq<real>, w: int) returns (i: int)
    requires 0 <= w < |ls| && w < |th|
    requires Prunes(ls, th, w)
    ensures 0 <= i <= w
    ensures Survives(ls, th, i) && Prunes(ls, th, i)
  {
    i := 0;
    while !Prunes(ls, th, i)
      invariant 0 <= i <= w
      invariant Survives(ls, th, i)
      decreases w - i
    {
      i := i + 1;
    }
  }

  // ---------------------------------------------------------------------
  // The tree loop is the cascade

  /** If none of the first `k` trees prunes, the loop reaches tree `k`
      with root `4*S*k` and running sum the prefix sum of the first `k`
      predictions. */
  lemma {:induction false} ClassifyReaches(p: Pico, img: Image, r: int, c: int, scale: real, n: int, ls: seq<real>, k: int)
    requires Covers(p, n) && 0 <= n && WindowSafe(img, r, c, scale) && ls == Leaves(p, img, r, c, scale, n)
    requires 0 <= k <= n && k <= p.ntrees
    requires Survives(ls, p.thresh, k)
    ensures Passed(p, k, PrefixSum(ls, k))
    ensures Classify(p, img, r, c, scale)
            == EvalTrees(p, img, 256 * r, 256 * c, scale, k, Times(4 * p.tdepthSqr, k), PrefixSum(ls, k))
    decreases k
  {
    if k > 0 {
      ClassifyReaches(p, img, r, c, scale, n, ls, k - 1);
      ReachNext(p, img, r, c, scale, n, ls, k);
    }
  }

  /** The inductive step of `ClassifyReaches`: tree `k - 1` does not
      prune, so the loop moves on to tree `k`. */
  lemma ReachNext(p: Pico, img: Image, r: int, c: int, scale: real, n: int, ls: seq<real>, k: int)
    requires Covers(p, n) && 0 <= n && WindowSafe(img, r, c, scale) && ls == Leaves(p, img, r, c, scale, n)
    requires 1 <= k <= n && k <= p.ntrees
    requires !Prunes(ls, p.thresh, k - 1)
    requires Passed(p, k - 1, PrefixSum(ls, k - 1))
    ensures Passed(p, k, PrefixSum(ls, k))
    ensures EvalTrees(p, img, 256 * r, 256 * c, scale, k - 1, Times(4 * p.tdepthSqr, k - 1), PrefixSum(ls, k - 1))
            == EvalTrees(p, img, 256 * r, 256 * c, scale, k, Times(4 * p.tdepthSqr, k), PrefixSum(ls, k))
  {
    var s := p.tdepthSqr;
    PredIndexSafe(p, img, r, c, scale, k - 1);
    LeavesAt(p, img, r, c, scale, n, k - 1);
    var j := LeafIndex(p, img, r, c, scale, k - 1);
    TimesStep(4 * s, k - 1);
    EvalTreesPass(p, img, 256 * r, 256 * c, scale, k, Times(4 * s, k - 1), Times(4 * s, k), PrefixSum(ls, k - 1), PrefixSum(ls, k), j);
  }

  /** One passed tree of the loop: tree `k - 1` does not prune, so the
      loop moves on to tree `k` with the code block advanced by `4 * S`
      and the running sum `o'`. */
  lemma EvalTreesPass(p: Pico, img: Image, fr: int, fc: int, scale: real, k: int, root: int, next: int, o: real, o': real, j: int)
    requires 1 <= k <= p.ntrees && Passed(p, k - 1, o)
    requires PredIndex(p, img, fr, fc, scale, k - 1, root) == Ok(j)
    requires next == root + 4 * p.tdepthSqr && o' == o + p.tpreds[j]
    requires k - 1 < |p.thresh| && o' > p.thresh[k - 1]
    ensures Passed(p, k, o')
    ensures EvalTrees(p, img, fr, fc, scale, k - 1, root, o) == EvalTrees(p, img, fr, fc, scale, k, next, o')
  {
  }

  /** Cascade pruning is a short circuit: once tree `i` brings the running
      sum to or below its threshold the result is exactly `-1.0`. Only the
      first `i + 1` trees need be present, so no later tree is read. */
  lemma CascadePrunes(p: Pico, img: Image, r: int, c: int, scale: real, n: int, ls: seq<real>, i: int)
    requires Covers(p, n) && 0 <= n && WindowSafe(img, r, c, scale) && ls == Leaves(p, img, r, c, scale, n)
    requires 0 <= i < n && i < p.ntrees
    requires Survives(ls, p.thresh, i) && Prunes(ls, p.thresh, i)
    ensures Classify(p, img, r, c, scale) == Ok(-1.0)
  {
    var s := p.tdepthSqr;
    ClassifyReaches(p, img, r, c, scale, n, ls, i);
    PredIndexSafe(p, img, r, c, scale, i);
    LeavesAt(p, img, r, c, scale, n, i);
  }

  /** A window no tree prunes scores the full sum minus the last threshold,
      which is strictly positive. */
  lemma ClassifyAccepts(p: Pico, img: Image, r: int, c: int, scale: real, ls: seq<real>)
    requires WellFormed(p) && p.ntrees >= 1 && WindowSafe(img, r, c, scale)
    requires ls == Leaves(p, img, r, c, scale, p.ntrees)
    requires Survives(ls, p.thresh, p.ntrees)
    ensures Classify(p, img, r, c, scale) == Ok(PrefixSum(ls, p.ntrees) - p.thresh[p.ntrees - 1])
    ensures PrefixSum(ls, p.ntrees) - p.thresh[p.ntrees - 1] > 0.0
  {
    ClassifyReaches(p, img, r, c, scale, p.ntrees, ls, p.ntrees);
  }

  /** The classifier is the cascade: on a well-formed detector and a safe
      window it never panics, rejects with `-1.0` exactly when some tree
      prunes, and otherwise scores the full sum of predictions minus the
      last threshold. */
  lemma ClassifyIsCascade(p: Pico, img: Image, r: int, c: int, scale: real)
    requires WellFormed(p) && p.ntrees >= 1 && WindowSafe(img, r, c, scale)
    ensures var ls := Leaves(p, img, r, c, scale, p.ntrees);
            Classify(p, img, r, c, scale) ==
              Ok(if exists t :: 0 <= t < p.ntrees && Prunes(ls, p.thresh, t)
                 then -1.0
                 else PrefixSum(ls, p.ntrees) - p.thresh[p.ntrees - 1])
  {
    var n := p.ntrees;
    var ls := Leaves(p, img, r, c, scale, n);
    if exists t :: 0 <= t < n && Prunes(ls, p.thresh, t) {
      var w :| 0 <= w < n && Prunes(ls, p.thresh, w);
      var i := FirstPrune(ls, p.thresh, w);
      CascadePrunes(p, img, r, c, scale, n, ls, i);
    } else {
      SurvivesEach(ls, p.thresh, n);
      ClassifyAccepts(p, img, r, c, scale, ls);
    }
  }

  /** On a well-formed detector with at least one tree, classifying a safe
      window never panics. */
  lemma ClassifySafe(p: Pico, img: Image, r: int, c: int, scale: real)
    requires WellFormed(p) && p.ntrees >= 1 && WindowSafe(img, r, c, scale)
    ensures Classify(p, img, r, c, scale).Ok?
  {
    ClassifyIsCascade(p, img, r, c, scale);
  }
}
