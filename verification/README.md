# pico cascade detector — Dafny model

This project models the detector core of a WebAssembly port of the *pico*
face detector (`src/lib.rs`). A `Pico` object holds a pre-trained cascade
of depth-bounded binary decision trees. The model covers its four parts:

- **Unpacking** (`Pico::unpack_cascade`) parses the cascade's binary file
  into three flat buffers: signed code bytes, leaf predictions and
  per-tree rejection thresholds.
- **Classification** (`classify_region`) evaluates the trees on one square
  window of a grayscale image. Each tree is walked as an implicit heap,
  one pixel comparison per level. The running sum of leaf predictions is
  checked against each tree's threshold and rejects early.
- **Scanning** (`run_cascade`) slides windows of growing size over a
  regular grid and keeps those with a positive score.
- **`Pico::new`** and the `Image` / `RunParams` records are plain
  datatypes.

Modules, one per part of the source:

| module | file | contents |
|---|---|---|
| `Numeric` | numeric.dfy | bytes, `i8` reinterpretation, little-endian `i32`, truncating casts, powers, repeated-addition products |
| `Detector` | detector.dfy | `Image`, `RunParams`, `Detection`, `Pico`, `New`, faults, and the well-formedness predicates |
| `Unpack` | unpack.dfy | the parser |
| `Classifier` | classify.dfy | the tree walk, the cascade, and the reference semantics it is proved equal to |
| `Scan` | scan.dfy | the window enumeration, the fold over it, and the imperative three-loop `RunCascade` |
| `Scenarios` | scenarios.dfy | worked examples |

How the source's machine semantics are rendered:

- **Panics.** Every Rust panic the core can hit becomes an `Err(fault)`
  result. These are: a byte slice past the end of the file, an overflowing
  `2.pow(tdepth)`, and an index outside `tcodes`, `tpreds`, `thresh` or
  `pixels`. A panic aborts the WebAssembly instance, so the state left
  behind by a half-finished call is not modelled. Arithmetic overflow
  counts as a panic only in a build with overflow checks (Rust's default
  debug profile); the release-build difference is listed under
  "Left out".
- **`f32`.** `f32` values are reals.
- **Casts and shifts.**
  - `as i32` on a float is truncation toward zero (`Trunc`).
  - `>> 8` on the result is floor division by 256.
  - `as i8` on a code byte is two's-complement reinterpretation.
- **Word decoding.** Little-endian `f32` words are decoded by a function
  parameter `dec`, because their IEEE-754 bit decoding is not modelled.
- **Unbounded integers.** Integers are unbounded. The one overflow the
  model does track is `(2 as isize).pow(tdepth as u32)`, on the 32-bit
  `isize` of the wasm32 target, in a build with overflow checks:
  - it succeeds exactly for `0 <= tdepth <= 30`, and panics otherwise;
  - a negative `tdepth` becomes an exponent of 2^32 + tdepth, so it
    overflows too.

Where the model follows the code rather than the format's written
description:

- **The pad bytes.** The file format is sometimes described with each
  tree's four reserved zero bytes stored in the file. The parser does not
  read them from the file. It inserts the four zero bytes itself and then
  copies only `4*2^tdepth - 4` code bytes (src/lib.rs:102-104), so each
  tree occupies `8*2^tdepth` bytes of the file.
  - `Scenarios.DepthOneTree` shows the consequence: a file that did store
    the pad would have those zero bytes read as node 1's code bytes, and
    every later word would be read four bytes early.
- **A cascade with no trees.** It is sometimes said to reject every
  window. In the code, `classify_region` with `ntrees <= 0` indexes
  `thresh[(ntrees - 1) as usize]`, which is out of range and panics
  (src/lib.rs:188).
  - The model has `Classify` return `Err(IndexOutOfRange(Thresh))`.
  - `Scan.FreshScan` shows what follows: a detector straight from
    `Pico::new` faults on the first window it scans.
- **Repeated unpacking.** `unpack_cascade` extends the buffers instead of
  replacing them, while it overwrites `tdepth`, `ntrees` and `tdepth_sqr`.
  `Unpack.UnpackCascade` states this with `Appended`. Since the classifier
  always starts at code offset 0, a detector unpacked twice keeps
  evaluating the first file's trees, laid out with the second file's
  depth; `Unpack.UnpackFresh` states the layout for the usual single
  unpack into `Pico::new`.

## Model

| member | source | states |
|---|---|---|
| `Numeric.DecodeEncodeI32` | src/lib.rs:92-98 | reading back the four little-endian bytes of any 32-bit signed integer gives that integer (the header's `read_i32::<LittleEndian>`) |
| `Numeric.EncodeDecodeI32` | src/lib.rs:92-98 | every four-byte slice is the encoding of the integer read from it, so the header read loses nothing |
| `Numeric.AsI8` | src/lib.rs:166-171 | a code byte read `as i8` is the unique value in [-128, 128) congruent to it modulo 256 |
| `Numeric.Trunc` | src/lib.rs:166-171 | the float-to-int cast rounds toward zero: the result is within 1 of its argument on the side of zero |
| `Unpack.LeafCount` | src/lib.rs:94 | `2.pow(tdepth as u32)` on a 32-bit `isize`, with overflow checks, succeeds exactly when 0 <= tdepth <= 30 (equivalently, when 2^(tdepth mod 2^32) fits in `i32`), giving 2^tdepth, and otherwise overflows naming the exponent |
| `Unpack.ReadWords` | src/lib.rs:107-111 | the prediction loop succeeds exactly when 4*count bytes remain; it then yields the decoded words at offsets at, at+4, ...; otherwise it is a slice panic |
| `Unpack.UnpackTree` | src/lib.rs:102-115 | one tree succeeds exactly when 8*S bytes remain. It appends 4*S code bytes (four zero bytes, then 4*S-4 bytes copied verbatim), S decoded predictions and one decoded threshold, and changes nothing else |
| `Unpack.UnpackTrees` | src/lib.rs:101-116 | the tree loop succeeds exactly when count*8*S bytes remain, appends 4*S*count, S*count and count entries, and stores tree t at code offset 4*S*t, prediction offset S*t and file offset at+8*S*t |
| `Unpack.UnpackCascade` | src/lib.rs:90-117 | the parse succeeds exactly when the header is present, 0 <= tdepth <= 30 and 16 + ntrees*8*2^tdepth bytes are present. It then sets tdepth and ntrees to the header's little-endian fields and tdepth_sqr to 2^tdepth, extends (not replaces) the buffers with every tree, and leaves a well-formed detector |
| `Unpack.UnpackFresh` | src/lib.rs:78-117 | unpacking into `Pico::new` leaves buffers of exactly 4*S*n code bytes, S*n predictions and n thresholds holding tree t at offsets 4*S*t, S*t and t, and no detections |
| `Detector.CoversFromLengths` | src/lib.rs:180-185 | buffers of 4*S*k code bytes, S*k predictions and k thresholds hold every tree block the classifier addresses for the first k trees (root advancing by 4*S per tree) |
| `Classifier.Margin` | src/lib.rs:139 | the scan's border `(scale/2 + 1) as i32` is at least 1 and lies in (scale/2, scale/2 + 1] |
| `Classifier.Child` | src/lib.rs:166-175 | one descent step moves from heap node idx to 2*idx or 2*idx+1, and can fail only on a code byte or pixel index out of range |
| `Classifier.DescendInterval` | src/lib.rs:165-176 | a completed descent of `steps` levels from node idx ends in [idx*2^steps, (idx+1)*2^steps); from the root it ends on one of the 2^tdepth leaves [S, 2*S) |
| `Classifier.ProbeInRange` | src/lib.rs:166-171 | a probe coordinate `(256*x + off*scale) as i32 >> 8` from a centre inside the margin lies in [0, n) for every signed offset byte |
| `Classifier.PixelInRange` | src/lib.rs:166-173 | both probe pixels of a node lie inside the pixel buffer for a window inside the margin, when ncols <= ldim and ldim*nrows <= \|pixels\| |
| `Classifier.ChildSafe` | src/lib.rs:166-175 | a descent step at a node below S, in a tree whose 4*S code bytes lie in the buffer, never faults on a safe window |
| `Classifier.DescendSafe` | src/lib.rs:165-176 | a descent whose subtree stays below heap slot 2*S only reads nodes inside its tree's code block, so it never faults |
| `Classifier.PredIndexSafe` | src/lib.rs:180-181 | tree t's prediction index `S*t + leaf - S` succeeds and lies in tree t's own block [S*t, S*(t+1)) of predictions |
| `Classifier.LeafIndex` | src/lib.rs:180-185 | the leaf prediction tree t reaches, with code block at root 4*S*t, is inside the prediction buffer and inside tree t's block |
| `Classifier.LeavesAt` | src/lib.rs:180-181 | entry t of the per-tree prediction list is the prediction stored at the leaf tree t reaches |
| `Classifier.SurvivesEach` | src/lib.rs:182-184 | a window survives the first k trees exactly when none of them brings the running sum to or below its threshold |
| `Classifier.FirstPrune` | src/lib.rs:182-184 | if any tree prunes, there is a first pruning tree, and every tree before it passed |
| `Classifier.Classify` | src/lib.rs:156-189 | the score is either -1.0 or strictly positive; with ntrees <= 0 the final threshold lookup is out of range |
| `Classifier.CascadePrunes` | src/lib.rs:180-184 | when tree i is the first whose running sum is at or below its threshold, the result is exactly -1.0 and no later tree is read |
| `Classifier.ClassifyAccepts` | src/lib.rs:188 | when no tree prunes, the result is the full sum of predictions minus the last tree's threshold, and it is strictly positive |
| `Classifier.ClassifyIsCascade` | src/lib.rs:156-189 | on a well-formed detector with at least one tree and a safe window, the tree loop equals the cascade: -1.0 when some tree prunes, else sum minus last threshold |
| `Classifier.ClassifySafe` | src/lib.rs:162-188 | on a well-formed detector with at least one tree, classifying a window inside the margin never panics |
| `Scan.Step` | src/lib.rs:138 | the grid step `max(1, shift_factor*scale) as i32` is the integer part of max(1, shift_factor*scale): at least 1, at most that value and more than that value minus 1 |
| `Scan.ScaleNeverPasses` | src/lib.rs:137-152 | when 0 < min_size <= max_size and -1 <= scale_factor <= 1, the parameters fall outside `Terminates` and every pass keeps the window size at or below max_size, so the loop condition never fails |
| `Scan.ScaleBoundHolds` | src/lib.rs:137-152 | with min_size > 0 and scale_factor > 1, the scale loop runs fewer than an explicit bound of passes, so it terminates |
| `Scan.WindowsMembership` | src/lib.rs:134-152 | the scan visits exactly the windows whose size is min_size*scale_factor^k <= max_size and whose row and column are on the step grid inside the margin |
| `Scan.WindowsSorted` | src/lib.rs:137-152 | the windows are visited in strictly increasing order of size, then row, then column |
| `Scan.WindowsSafe` | src/lib.rs:139-142 | every visited window is safe: positive size and centre inside the margin |
| `Scan.Visit` | src/lib.rs:143-146 | one window faults exactly when the classifier faults, and otherwise appends at most its own detection |
| `Scan.Collect` | src/lib.rs:141-150 | folding over windows keeps the earlier detections as a prefix and adds at most one entry per window |
| `Scan.CollectExact` | src/lib.rs:143-146 | a detection is in the fold's result exactly when it was there before or its window was visited with that positive score |
| `Scan.ScanExact` | src/lib.rs:134-153 | a scan from an empty list reports exactly the visited windows with a positive score, each with the classifier's score |
| `Scan.ScanOrdered` | src/lib.rs:134-153 | detections are reported in strictly increasing (size, row, column) order |
| `Scan.ScanSafe` | src/lib.rs:134-153 | on a well-formed detector with at least one tree and an image with ncols <= ldim and ldim*nrows <= \|pixels\|, the scan never panics |
| `Scan.ScanBounds` | src/lib.rs:137-145 | every detection has a positive score, a centre at least the margin from each edge, and a visited size min_size*scale_factor^k <= max_size |
| `Scan.FreshScan` | src/lib.rs:78-88 | a detector from `Pico::new` has no trees, so a scan with it succeeds only if it visits no window |
| `Scan.ScanRow` | src/lib.rs:142-148 | the column loop computes the fold of the classifier over the row's windows |
| `Scan.ScanGrid` | src/lib.rs:141-150 | the row loop computes the fold over every grid row at one window size |
| `Scan.RunCascade` | src/lib.rs:119-154 | `run_cascade` resets the detections and sets them to the scan's result; it faults exactly when the scan faults, with the same fault, and changes nothing else |
| `Scenarios.DepthOneTree` | src/lib.rs:90-117 | a buffer announcing one tree of depth 1 unpacks into the zero pad plus the code bytes at 16..20, predictions at 20 and 24, and threshold at 28 |
| `Scenarios.ClassifyUniform` | src/lib.rs:156-189 | one depth-1 tree on a uniform 4 x 4 image: equal probes take the right child to leaf 3, and the window scores 0.5 |

## Left out

- Console logging (src/lib.rs:11-23) and `log_detections` (src/lib.rs:191-197) are host I/O and are not modelled.
- `index.js` is not part of this model. It does canvas access, fetching, grayscale conversion and timing on the host side.
- Temporal detection memory and IoU clustering are not in `src/lib.rs`, so they are not modelled.
- `f32` rounding is not modelled. This covers `scale *= scale_factor`, `shift_factor * scale`, `256.0 * r` and the running sum of predictions. All of them are exact real arithmetic here.
- The bit-level IEEE-754 decoding of `read_f32` is a parameter (`dec`), so the model says which four bytes each prediction and threshold comes from, not what number they denote.
- Scan.RunCascade: requires `Terminates(params)` (min_size > max_size, or min_size > 0 and scale_factor > 1), which the source does not check. The condition is sufficient for the scale loop of src/lib.rs:137-153 to end, not necessary. Some parameters outside it loop for ever: `Scan.ScaleNeverPasses` shows that with 0 < min_size <= max_size and -1 <= scale_factor <= 1 the loop condition always holds, so the call runs until a pass panics or never returns. Others end, for example min_size = -20, max_size = 10, scale_factor = -1 (window sizes -20, then 20), and those runs are not modelled.
- Unpack.LeafCount: in a release build without overflow checks, `pow` wraps instead of panicking. tdepth = 31 gives `i32::MIN`, and tdepth >= 32 or negative gives 0. With ntrees >= 1 the tree loop then slices `bytes[16..12]` at src/lib.rs:103-104 and panics anyway. With ntrees <= 0 `unpack_cascade` returns normally with the wrapped `tdepth_sqr`, where the model reports `Err(PowOverflow(tdepth))`.
- Scan.Step: the saturating behaviour of a float-to-`i32` cast on values beyond the `i32` range is not modelled; `Trunc` is exact on unbounded integers.
- Classifier.Child: the probe index `row * ldim + col` is computed on unbounded integers. An `i32` overflow there (a debug panic, a wrap in release) is not modelled. A negative index, which `as usize` turns into a huge one, is an out-of-range fault as in the source.
- Classifier.ClassifySafe, Scan.ScanSafe: proved for windows inside the margin of an image with ncols <= ldim and ldim*nrows <= |pixels|. For other images the model only says that an out-of-range pixel is a fault.
- Other `i32`/`usize` overflows are not modelled. These include `4 * idx` and `root` growing past `usize` on huge cascades, and `nrows as i32` on images wider than 2^31. They need inputs far beyond any cascade file or image.
- Memory exhaustion from a huge `ntrees` is not modelled.
- Buffer offsets and sizes such as 4*S*t are written with `Numeric.Times`, a repeated-addition form of the product. `Numeric.TimesIsProduct` proves it equal to the product. The form only keeps the proofs small.
