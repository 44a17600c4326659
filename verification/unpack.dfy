/** `Pico::unpack_cascade`: the binary cascade parser.

    Buffer layout, as the parser reads it (all multi-byte fields
    little-endian):
      [8 skipped bytes][i32 tdepth][i32 ntrees]
    then, per tree, with S = 2^tdepth:
      [4*S - 4 code bytes][S f32 predictions][f32 threshold]
    so each tree occupies 8*S bytes. The parser itself inserts four zero
    bytes in front of every tree's code bytes, so each tree's code block in
    `tcodes` is 4*S bytes long and heap slot 0 is never read from the buffer. */
module Unpack {
  import opened Numeric
  import opened Detector

  /** Decoding of one little-endian `f32` word to the value it denotes. The
      bit-level IEEE-754 decoding is not modelled: it is a parameter. */
  type F32Decoder = (Byte, Byte, Byte, Byte) -> real

  const HeaderSize: int := 16

  /** The `f32` word stored at `bytes[at..at + 4]`. */
  function WordAt(bytes: seq<Byte>, at: int, dec: F32Decoder): real
    requires 0 <= at && at + 4 <= |bytes|
  {
    dec(bytes[at], bytes[at + 1], bytes[at + 2], bytes[at + 3])
  }

  /** `count` consecutive `f32` words starting at `at`, in closed form. */
  function DecodedWords(bytes: seq<Byte>, at: nat, count: nat, dec: F32Decoder): seq<real>
    requires at + 4 * count <= |bytes|
  {
    seq(count, m requires 0 <= m < count => WordAt(bytes, at + 4 * m, dec))
  }

  /** The header's `tdepth` field, bytes 8..12. */
  function DepthField(bytes: seq<Byte>): int
    requires |bytes| >= 12
  {
    DecodeI32LE(bytes[8..12])
  }

  /** The header's `ntrees` field, bytes 12..16. */
  function CountField(bytes: seq<Byte>): int
    requires |bytes| >= 16
  {
    DecodeI32LE(bytes[12..16])
  }

  /** `(2 as isize).pow(tdepth as u32)` on a 32-bit `isize`: the exponent
      is the `i32` reinterpreted as `u32`, and a power that does not fit
      the signed 32-bit range is an overflow panic in a build with
      overflow checks (the default debug profile). */
  function LeafCount(tdepth: int): (r: Result<int>)
    requires IsI32(tdepth)
    ensures r.Ok? <==> 0 <= tdepth <= MaxDepth
    ensures r.Ok? ==> r.value == Pow2(tdepth)
    ensures r.Err? ==> r.fault == PowOverflow(tdepth)
    ensures r.Ok? <==> Pow2(tdepth % TwoTo32) < I32Limit
  {
    var e := tdepth % TwoTo32;
    Pow2Threshold(e);
    if e <= MaxDepth then Ok(Pow2(e)) else Err(PowOverflow(tdepth))
  }

  /** 2^e fits a signed 32-bit integer exactly when e <= 30. */
  lemma Pow2Threshold(e: nat)
    ensures Pow2(e) < I32Limit <==> e <= MaxDepth
  {
    Pow2Of30();
    if e <= MaxDepth {
      Pow2Monotone(e, MaxDepth);
    } else {
      Pow2Monotone(MaxDepth + 1, e);
    }
  }

  lemma Pow2Of30()
    ensures Pow2(30) == 0x4000_0000
  {
    assert Pow2(5) == 32;
    assert Pow2(10) == 1024;
    assert Pow2(15) == 32768;
    assert Pow2(20) == 0x10_0000;
    assert Pow2(25) == 0x200_0000;
  }

  lemma {:induction false} Pow2Monotone(a: nat, b: nat)
    requires a <= b
    ensures Pow2(a) <= Pow2(b)
  {
    if a < b {
      Pow2Monotone(a, b - 1);
    }
  }

  /** The inner prediction loop: reads `count` words one slice at a time. */
  function ReadWords(bytes: seq<Byte>, at: nat, count: nat, dec: F32Decoder): (r: Result<seq<real>>)
    requires at <= |bytes|
    decreases count
    ensures r.Ok? <==> at + 4 * count <= |bytes|
    ensures r.Ok? ==> r.value == DecodedWords(bytes, at, count, dec)
    ensures r.Err? ==> r.fault == SliceOutOfRange
  {
    if count == 0 then Ok([])
    else if at + 4 > |bytes| then Err(SliceOutOfRange)
    else match ReadWords(bytes, at + 4, count - 1, dec)
      case Err(e) => Err(e)
      case Ok(ws) => Ok([WordAt(bytes, at, dec)] + ws)
  }

  /** `q` keeps all of `p`'s buffers as prefixes and has `nc` code bytes,
      `np` predictions and `nt` thresholds appended; nothing else changes. */
  predicate Appended(p: Pico, q: Pico, nc: int, np: int, nt: int) {
    && 0 <= nc && 0 <= np && 0 <= nt
    && |q.tcodes| == |p.tcodes| + nc && q.tcodes[..|p.tcodes|] == p.tcodes
    && |q.tpreds| == |p.tpreds| + np && q.tpreds[..|p.tpreds|] == p.tpreds
    && |q.thresh| == |p.thresh| + nt && q.thresh[..|p.thresh|] == p.thresh
    && q.tdepth == p.tdepth && q.ntrees == p.ntrees && q.tdepthSqr == p.tdepthSqr
    && q.detections == p.detections
  }

  /** A tree whose 8*s buffer bytes start at `at` is stored in `q` with its
      code block at `cb`, its predictions at `pb` and its threshold at `tb`:
      four zero bytes, then the 4*s - 4 code bytes copied verbatim, then the
      s decoded predictions, then the decoded threshold. */
  predicate TreeStored(q: Pico, cb: int, pb: int, tb: int, bytes: seq<Byte>, at: int, s: int, dec: F32Decoder) {
    && 1 <= s && 0 <= at && at + 8 * s <= |bytes|
    && 0 <= cb && cb + 4 * s <= |q.tcodes|
    && 0 <= pb && pb + s <= |q.tpreds|
    && 0 <= tb < |q.thresh|
    && q.tcodes[cb..cb + 4] == [0, 0, 0, 0]
    && q.tcodes[cb + 4..cb + 4 * s] == bytes[at..at + 4 * s - 4]
    && q.tpreds[pb..pb + s] == DecodedWords(bytes, at + 4 * s - 4, s, dec)
    && q.thresh[tb] == WordAt(bytes, at + 8 * s - 4, dec)
  }

  /** Tree `t` of a run of trees read from `at` is stored after the
      `c0`, `p0`, `t0` entries the buffers held before. */
  predicate TreeAt(q: Pico, c0: int, p0: int, t0: int, bytes: seq<Byte>, at: int, s: int, dec: F32Decoder, t: int) {
    TreeStored(q, c0 + 4 * s * t, p0 + s * t, t0 + t, bytes, at + 8 * s * t, s, dec)
  }

  /** One iteration of the tree loop. */
  function UnpackTree(p: Pico, bytes: seq<Byte>, at: nat, s: int, dec: F32Decoder): (r: Result<Pico>)
    requires s >= 1
    ensures r.Ok? <==> at + 8 * s <= |bytes|
    ensures r.Err? ==> r.fault == SliceOutOfRange
    ensures r.Ok? ==> Appended(p, r.value, 4 * s, s, 1)
    ensures r.Ok? ==> TreeStored(r.value, |p.tcodes|, |p.tpreds|, |p.thresh|, bytes, at, s, dec)
  {
    var padded := p.tcodes + [0, 0, 0, 0];
    var next := at + 4 * s - 4;
    if next > |bytes| then Err(SliceOutOfRange)
    else
      var codes := padded + bytes[at..next];
      match ReadWords(bytes, next, s, dec)
      case Err(e) => Err(e)
      case Ok(ws) =>
        var tp := next + 4 * s;
        if tp + 4 > |bytes| then Err(SliceOutOfRange)
        else
          var q := p.(tcodes := codes, tpreds := p.tpreds + ws, thresh := p.thresh + [WordAt(bytes, tp, dec)]);
          assert q.tcodes[|p.tcodes|..|p.tcodes| + 4] == [0, 0, 0, 0];
          assert q.tcodes[|p.tcodes| + 4..|p.tcodes| + 4 * s] == bytes[at..next];
          assert q.tpreds[|p.tpreds|..|p.tpreds| + s] == ws;
          Ok(q)
  }

  lemma SliceOfPrefix<T>(a: seq<T>, n: int, i: int, j: int)
    requires 0 <= i <= j <= n <= |a|
    ensures a[i..j] == a[..n][i..j]
  {
  }

  /** A `TreeStored` fact survives appending to the buffers. */
  lemma TreeStoredKept(q: Pico, q': Pico, nc: int, np: int, nt: int, cb: int, pb: int, tb: int,
                       bytes: seq<Byte>, at: int, s: int, dec: F32Decoder)
    requires Appended(q, q', nc, np, nt)
    requires TreeStored(q, cb, pb, tb, bytes, at, s, dec)
    ensures TreeStored(q', cb, pb, tb, bytes, at, s, dec)
  {
    SliceOfPrefix(q'.tcodes, |q.tcodes|, cb, cb + 4);
    SliceOfPrefix(q'.tcodes, |q.tcodes|, cb + 4, cb + 4 * s);
    SliceOfPrefix(q'.tpreds, |q.tpreds|, pb, pb + s);
    assert q'.thresh[tb] == q'.thresh[..|q.thresh|][tb];
  }

  /** Re-basing tree `t` of the run after the first tree as tree `t + 1`
      of the whole run. */
  lemma TreeAtShift(r: Pico, c0: int, p0: int, t0: int, c1: int, p1: int, t1: int,
                    bytes: seq<Byte>, at: int, next: int, s: int, dec: F32Decoder, t: int)
    requires next == at + 8 * s && c1 == c0 + 4 * s && p1 == p0 + s && t1 == t0 + 1
    requires TreeAt(r, c1, p1, t1, bytes, next, s, dec, t)
    ensures TreeAt(r, c0, p0, t0, bytes, at, s, dec, t + 1)
  {
    assert c0 + 4 * s + 4 * s * t == c0 + 4 * s * (t + 1);
    assert p0 + s + s * t == p0 + s * (t + 1);
    assert next + 8 * s * t == at + 8 * s * (t + 1);
  }

  lemma AppendedTrans(p: Pico, q: Pico, r: Pico, nc: int, np: int, nt: int, mc: int, mp: int, mt: int)
    requires Appended(p, q, nc, np, nt) && Appended(q, r, mc, mp, mt)
    requires nc >= 0 && np >= 0 && nt >= 0
    ensures Appended(p, r, nc + mc, np + mp, nt + mt)
  {
    assert r.tcodes[..|p.tcodes|] == r.tcodes[..|q.tcodes|][..|p.tcodes|];
    assert r.tpreds[..|p.tpreds|] == r.tpreds[..|q.tpreds|][..|p.tpreds|];
    assert r.thresh[..|p.thresh|] == r.thresh[..|q.thresh|][..|p.thresh|];
  }

  /** The tree loop: `count` trees of `s` leaves each, starting at `at`. */
  function UnpackTrees(p: Pico, bytes: seq<Byte>, at: nat, count: nat, s: int, dec: F32Decoder): (r: Result<Pico>)
    requires s >= 1
    requires at <= |bytes|
    decreases count
    ensures r.Ok? <==> at + count * (8 * s) <= |bytes|
    ensures r.Err? ==> r.fault == SliceOutOfRange
    ensures r.Ok? ==> Appended(p, r.value, 4 * s * count, s * count, count)
    ensures r.Ok? ==> forall t :: 0 <= t < count ==>
                        TreeAt(r.value, |p.tcodes|, |p.tpreds|, |p.thresh|, bytes, at, s, dec, t)
  {
    if count == 0 then Ok(p)
    else
      var first := UnpackTree(p, bytes, at, s, dec);
      TreeSpan(at, count, 8 * s);
      if first.Err? then first
      else
        var r := UnpackTrees(first.value, bytes, at + 8 * s, count - 1, s, dec);
        if r.Err? then r
        else
          UnpackTreesStep(p, first.value, r.value, bytes, at, at + 8 * s, count, s, dec);
          r
  }

  lemma PeelOne(a: int, n: int)
    ensures a + a * (n - 1) == a * n
  {
  }

  /** `count` trees of `size` bytes from `at` are the first tree followed
      by `count - 1` trees from `at + size`. */
  lemma TreeSpan(at: int, count: int, size: int)
    requires count >= 1 && size >= 0
    ensures at + count * size == at + size + (count - 1) * size
    ensures at + count * size >= at + size
  {
    MulLe(size, 1, count);
    assert size * count == count * size;
  }

  lemma UnpackTreesStep(p: Pico, q: Pico, r: Pico, bytes: seq<Byte>, at: nat, next: nat, count: nat, s: int, dec: F32Decoder)
    requires s >= 1 && count >= 1 && next == at + 8 * s
    requires Appended(p, q, 4 * s, s, 1)
    requires TreeStored(q, |p.tcodes|, |p.tpreds|, |p.thresh|, bytes, at, s, dec)
    requires Appended(q, r, 4 * s * (count - 1), s * (count - 1), count - 1)
    requires forall t :: 0 <= t < count - 1 ==>
               TreeAt(r, |q.tcodes|, |q.tpreds|, |q.thresh|, bytes, next, s, dec, t)
    ensures Appended(p, r, 4 * s * count, s * count, count)
    ensures forall t :: 0 <= t < count ==> TreeAt(r, |p.tcodes|, |p.tpreds|, |p.thresh|, bytes, at, s, dec, t)
  {
    PeelOne(4 * s, count);
    PeelOne(s, count);
    AppendedTrans(p, q, r, 4 * s, s, 1, 4 * s * (count - 1), s * (count - 1), count - 1);
    TreeStoredKept(q, r, 4 * s * (count - 1), s * (count - 1), count - 1,
                   |p.tcodes|, |p.tpreds|, |p.thresh|, bytes, at, s, dec);
    LaterTreesKept(r, |p.tcodes|, |p.tpreds|, |p.thresh|, |q.tcodes|, |q.tpreds|, |q.thresh|,
                   bytes, at, next, count, s, dec);
    assert TreeAt(r, |p.tcodes|, |p.tpreds|, |p.thresh|, bytes, at, s, dec, 0);
  }

  /** The trees read after the first one are trees `1..count` of the
      whole run. */
  lemma LaterTreesKept(r: Pico, c0: int, p0: int, t0: int, c1: int, p1: int, t1: int,
                       bytes: seq<Byte>, at: int, next: int, count: int, s: int, dec: F32Decoder)
    requires next == at + 8 * s && c1 == c0 + 4 * s && p1 == p0 + s && t1 == t0 + 1
    requires forall t :: 0 <= t < count - 1 ==> TreeAt(r, c1, p1, t1, bytes, next, s, dec, t)
    ensures forall t :: 1 <= t < count ==> TreeAt(r, c0, p0, t0, bytes, at, s, dec, t)
  {
    forall t | 1 <= t < count
      ensures TreeAt(r, c0, p0, t0, bytes, at, s, dec, t)
    {
      TreeAtShift(r, c0, p0, t0, c1, p1, t1, bytes, at, next, s, dec, t - 1);
    }
  }

  /** The buffer holds a usable header and every tree it announces:
      exactly the condition under which the parser does not panic. */
  predicate CascadeFits(bytes: seq<Byte>) {
    && |bytes| >= HeaderSize
    && 0 <= DepthField(bytes) <= MaxDepth
    && HeaderSize + Iterations(CountField(bytes)) * (8 * Pow2(DepthField(bytes))) <= |bytes|
  }

  /** `Pico::unpack_cascade`. The detector is extended, not reset: new trees
      are appended after whatever the buffers already held, while `tdepth`,
      `ntrees` and `tdepthSqr` are overwritten. */
  function UnpackCascade(p: Pico, bytes: seq<Byte>, dec: F32Decoder): (r: Result<Pico>)
    ensures r.Ok? <==> CascadeFits(bytes)
    ensures r.Ok? ==>
              var q := r.value;
              var n := Iterations(CountField(bytes));
              var s := Pow2(DepthField(bytes));
              && q.tdepth == DepthField(bytes)
              && q.ntrees == CountField(bytes)
              && q.tdepthSqr == s
              && WellFormed(q)
              && Appended(p.(tdepth := q.tdepth, ntrees := q.ntrees, tdepthSqr := s), q, 4 * s * n, s * n, n)
              && forall t :: 0 <= t < n ==>
                   TreeAt(q, |p.tcodes|, |p.tpreds|, |p.thresh|, bytes, HeaderSize, s, dec, t)
  {
    if |bytes| < 12 then Err(SliceOutOfRange)
    else
      var tdepth := DepthField(bytes);
      match LeafCount(tdepth)
      case Err(e) => Err(e)
      case Ok(s) =>
        if |bytes| < HeaderSize then Err(SliceOutOfRange)
        else
          var ntrees := CountField(bytes);
          var p1 := p.(tdepth := tdepth, ntrees := ntrees, tdepthSqr := s);
          var n := Iterations(ntrees);
          var r := UnpackTrees(p1, bytes, HeaderSize, n, s, dec);
          if r.Err? then r
          else
            CoversFromLengths(r.value, n);
            r
  }

  /** Unpacking into a fresh `Pico::new` leaves buffers holding exactly
      the file's trees: tree `t` at code offset `4*S*t`, prediction offset
      `S*t` and threshold `t`, and no detections. */
  lemma UnpackFresh(bytes: seq<Byte>, dec: F32Decoder)
    requires CascadeFits(bytes)
    ensures var q := UnpackCascade(New(), bytes, dec).value;
            var n, s := Iterations(CountField(bytes)), Pow2(DepthField(bytes));
            && |q.tcodes| == 4 * s * n && |q.tpreds| == s * n && |q.thresh| == n
            && q.detections == []
            && forall t :: 0 <= t < n ==> TreeAt(q, 0, 0, 0, bytes, HeaderSize, s, dec, t)
  {
  }
}
