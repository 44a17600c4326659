/** Worked examples: a one-tree cascade buffer and a concrete window,
    evaluated through the model. */
module Scenarios {
  import opened Numeric
  import opened Detector
  import opened Unpack
  import opened Classifier

  /** The header fields of a buffer announcing one tree of depth 1. */
  lemma HeaderOne(bytes: seq<Byte>)
    requires |bytes| >= 16
    requires bytes[8] == 1 && bytes[9] == 0 && bytes[10] == 0 && bytes[11] == 0
    requires bytes[12] == 1 && bytes[13] == 0 && bytes[14] == 0 && bytes[15] == 0
    ensures DepthField(bytes) == 1 && CountField(bytes) == 1
  {
    assert bytes[8..12] == [1, 0, 0, 0];
    assert bytes[12..16] == [1, 0, 0, 0];
  }

  /** A buffer announcing one tree of depth 1 (two leaves) unpacks into a
      fresh detector as that tree: the parser's four zero bytes, then the
      four code bytes of node 1 from offset 16, the predictions at 20 and
      24, and the threshold at 28. Bytes past 32 are ignored. */
  lemma DepthOneTree(bytes: seq<Byte>, dec: F32Decoder)
    requires |bytes| >= 32
    requires bytes[8] == 1 && bytes[9] == 0 && bytes[10] == 0 && bytes[11] == 0
    requires bytes[12] == 1 && bytes[13] == 0 && bytes[14] == 0 && bytes[15] == 0
    ensures var r := UnpackCascade(New(), bytes, dec);
            && r.Ok?
            && r.value.tdepth == 1 && r.value.ntrees == 1 && r.value.tdepthSqr == 2
            && r.value.tcodes == [0, 0, 0, 0, bytes[16], bytes[17], bytes[18], bytes[19]]
            && r.value.tpreds == [WordAt(bytes, 20, dec), WordAt(bytes, 24, dec)]
            && r.value.thresh == [WordAt(bytes, 28, dec)]
  {
    HeaderOne(bytes);
    assert Pow2(1) == 2;
    assert Iterations(CountField(bytes)) == 1;
    assert CascadeFits(bytes);
    UnpackFresh(bytes, dec);
    var q := UnpackCascade(New(), bytes, dec).value;
    assert |q.tcodes| == 8 && |q.tpreds| == 2 && |q.thresh| == 1;
    assert TreeAt(q, 0, 0, 0, bytes, HeaderSize, 2, dec, 0);
    assert TreeStored(q, 0, 0, 0, bytes, HeaderSize, 2, dec);
    assert q.tcodes == q.tcodes[0..4] + q.tcodes[4..8];
    assert q.tpreds == q.tpreds[0..2];
  }

  /** The one-tree detector of `DepthOneTree` with node 1's code bytes
      `0, -1, 0, 1`, predictions `0.5, -0.5` and threshold `-1.0`, on a
      uniform 4 x 4 image at window (2, 2) of size 1: both probes read
      equal pixels, the descent takes the right child to leaf 3, the
      prediction -0.5 passes the threshold -1.0, and the window scores
      0.5. */
  lemma ClassifyUniform()
    ensures var p := Pico(1, 1, 2, [0, 0, 0, 0, 0, 255, 0, 1], [0.5, -0.5], [-1.0], []);
            var img := Image(4, 4, 4, seq(16, _ => 100));
            Classify(p, img, 2, 2, 1.0) == Ok(0.5)
  {
  }
}
