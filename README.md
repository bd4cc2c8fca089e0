# Garden-bed synthesis: a Dafny model of the leaf compositor

This project models the integer pixel-grid core of `synthesize.py`. That
file builds labelled training scenes for leaf segmentation. It pastes leaf
cutouts onto a background patch and, in lockstep, their solid-colour
semantic masks onto the background's mask patch.

Images are grids of RGB byte triples (`Pixels.Grid`, rows of `Pixels.Rgb`).
There are four modules:

- `Pixels` (pixels.dfy) holds bytes, pixels and grids, plus the strict
  `> 10` binary threshold that both call sites of `cv2.threshold` use. It
  also holds the `Result`/`Error` type for the exceptions the code raises:
  KeyError, ZeroDivisionError, TypeError, and the `cv2.error` that the
  luminance conversion raises on an image without pixels.
- `MaskEncoder` (mask_encoder.dfy) holds the fixed `ENCODING` table and
  `create_mask`, written as a pure function.
- `Compositor` (compositor.dfy) covers the stamp step of
  `build_randomized_layout`:
  - the per-pixel `bitwise_not` / masked `bitwise_and` / saturating `add`
    arithmetic;
  - `StampLayer` / `StampScene`, a specification on grid values;
  - `Stamp`, an in-place method over two `array2<Rgb>` buffers. It
    overwrites the placement rectangle of the background and of the
    background mask pixel by pixel.
- `Layout` (layout.dfy) covers the driver. It encodes every leaf's mask
  before the loop, picks leaf `i % len(leaves)` round robin, and defines
  the value-level specification `Run` / `Layout`. The imperative
  `BuildRandomizedLayout` method copies the caller's arrays and runs the
  iteration loop (`RunInPlace`) on the copies.

Three things in the source become explicit parameters:
- The luminance conversion `cv2.cvtColor(..., COLOR_RGB2GRAY)` becomes a
  parameter `gray: Rgb -> Byte`, used identically by the encoder and the
  stamp.
- `cv2.resize` followed by `rotate_image` becomes a parameter
  `warp: (Grid, Draw) -> Grid`, applied with the same `Draw` to the leaf
  and to its mask.
- The random draws of each iteration become an explicit sequence of
  `Draw(ratio, angle, dRow, dCol)`. Its length is `num_iters`.

The model follows what the code does:
- All leaf masks are encoded before the first iteration. A cutout without
  pixels makes `cv2.cvtColor` raise `cv2.error` (synthesize.py:19) before
  the table lookup. Otherwise an unknown leaf type raises KeyError
  (synthesize.py:23). Either happens even when `num_iters` is 0, and the
  first rejected leaf decides the exception.
- An empty leaf list fails only when at least one iteration runs, with
  ZeroDivisionError on `i % len(leaves)`.
- The mask and the image agree in both directions only when the
  transformed leaf masks match their transformed leaves. One direction
  holds whatever the leaf masks hold, provided the background pair
  satisfies it: a non-black mask pixel lies on a foreground image pixel.
  It is proved as `Layout.RunKeepsMaskOnForeground`.

## Model

| member | source | states |
|---|---|---|
| `Pixels.ThresholdBinary` | synthesize.py:20 | the binary threshold gives 0 or 255, and is non-zero exactly when the luminance is strictly above 10 |
| `MaskEncoder.CreateMask` | synthesize.py:15-24 | succeeds exactly when the cutout has pixels and the type is in the table; a cutout without pixels fails in the luminance conversion, and otherwise an unknown type fails with KeyError; on success the mask has the cutout's shape, and each pixel is the type's colour exactly where the luminance exceeds 10 and black exactly elsewhere |
| `MaskEncoder.EncodingInjective` | synthesize.py:9-13 | the table knows exactly types 0, 1 and 2 and paints them (255,0,0), (0,255,0) and (0,0,255); no colour is black, and two types share a colour only if they are the same type |
| `MaskEncoder.MaskTwoColours` | synthesize.py:21-23 | an encoder mask holds only two colours: black and the type's colour |
| `MaskEncoder.MaskIdentifiesType` | synthesize.py:9-23 | two encoder masks that agree on a non-black pixel were made for the same leaf type |
| `MaskEncoder.CreateMaskMatchesLeaf` | synthesize.py:19-23 | an encoder mask is non-black exactly at the foreground pixels of its cutout |
| `Compositor.BlendNeverSaturates` | synthesize.py:94-105 | for a threshold mask byte, one operand of the saturating add is black, so no channel sum exceeds 255 |
| `Compositor.BitwiseNot` | synthesize.py:94 | the inverse swaps the two threshold values 0 and 255, so a pixel is set in exactly one of a threshold mask and its inverse |
| `Compositor.MaskedCopy` | synthesize.py:97-102 | a masked copy keeps the pixel where the mask byte is non-zero and is black where it is zero |
| `Compositor.AddSaturate` | synthesize.py:105-108 | the uint8 addition is exact while the sum fits in a byte and 255 otherwise, and never smaller than either operand |
| `Compositor.AddPixels` | synthesize.py:105-108 | the per-channel saturating addition has black as identity on either side |
| `Compositor.Blend` | synthesize.py:94-108 | add(and(roi, not m), and(leaf, m)) equals the leaf-layer pixel where the threshold mask is 255 and the roi pixel where it is 0 |
| `Compositor.StampLayer` | synthesize.py:88-109 | the layer keeps its dimensions; a pixel in the placement rectangle whose leaf luminance exceeds 10 takes the layer pixel at the same offset, and every other pixel keeps its value |
| `Compositor.StampScene` | synthesize.py:88-109 | stamping keeps the scene's image and mask rectangular and of the background's dimensions |
| `Compositor.StampSynchronized` | synthesize.py:92-109 | image and mask are written at exactly the same pixels, with the leaf pixel and the leaf-mask pixel respectively; elsewhere both keep their values, in particular outside the rectangle |
| `Compositor.StampLayerIdempotent` | synthesize.py:88-106 | stamping the same leaf at the same placement twice gives the same layer as once |
| `Compositor.StampSceneIdempotent` | synthesize.py:88-109 | the same holds for the image-and-mask pair |
| `Compositor.Stamp` | synthesize.py:88-109 | the in-place update of the two arrays leaves exactly `StampLayer` of their old contents, with the leaf for the image and the leaf mask for the mask |
| `Compositor.StampRow` | synthesize.py:97-109 | one leaf row of the in-place update: rows before it are already stamped, and the rows after it keep their old pixels |
| `Layout.LeafIndex` | synthesize.py:66 | the selected index is a valid leaf index |
| `Layout.RoundRobin` | synthesize.py:65-66 | the first n iterations use leaves 0..n-1 in order; each iteration moves to the next leaf and wraps after the last; the order has period n |
| `Layout.LeafMasks` | synthesize.py:59 | succeeds exactly when the encoder accepts every leaf (pixels present, type in the table), giving one encoder mask per leaf in order; otherwise fails with the exception of the first rejected leaf, `cv2.error` for an empty cutout and KeyError for an unknown type |
| `Layout.LeafMasksAsWritten` | synthesize.py:59 | the one-argument call, as written, fails with TypeError for any non-empty leaf list |
| `Layout.AsWrittenMaskEncodingFails` | synthesize.py:59 | a single known-type cutout makes the as-written encoding fail while the intended one succeeds |
| `Layout.IterLeaf` | synthesize.py:65-78 | the first n iterations use leaves 0..n-1 in order, each through the iteration's resize and rotation, and every later iteration uses the leaf of n iterations before it |
| `Layout.IterMask` | synthesize.py:65-78 | the leaf masks are selected in the same order and put through the same transform as the leaves |
| `Layout.IterPairsLeafWithItsMask` | synthesize.py:59-78 | each iteration stamps one leaf together with that same leaf's encoder mask, both transformed with the same draws |
| `Layout.Run` | synthesize.py:65-109 | after any number of stamps the scene keeps the background's dimensions and image and mask stay the same shape |
| `Layout.Layout` | synthesize.py:50-111 | fails exactly when the encoder rejects a leaf (with the first rejected leaf's exception, which takes precedence) or the leaf list is empty with at least one iteration (ZeroDivisionError); otherwise gives a scene of the background's dimensions |
| `Layout.RunOutsideUnchanged` | synthesize.py:84-109 | a pixel outside every placement rectangle keeps its original value in both image and mask |
| `Layout.RunUnwrittenUnchanged` | synthesize.py:65-109 | a pixel that no iteration writes keeps its original value in both image and mask |
| `Layout.RunPixelProvenance` | synthesize.py:65-109 | a pixel last written by iteration t holds t's transformed leaf pixel in the image and t's transformed leaf-mask pixel in the mask, at the same offset |
| `Layout.RunKeepsMaskOnForeground` | synthesize.py:92-109 | if every non-black mask pixel lies on a foreground image pixel before the loop, that still holds after it |
| `Layout.RunKeepsSynchronized` | synthesize.py:92-109 | if each transformed leaf mask is non-black exactly on its leaf's foreground, the scene's "mask non-black iff image foreground" holds after every iteration |
| `Layout.LayoutSynchronizedWithoutResampling` | synthesize.py:58-109 | without resize or rotation, the encoder's masks keep a synchronised background pair synchronised through the whole layout |
| `Layout.CopyImage` | synthesize.py:62-63 | the copy is a fresh array with the same pixels |
| `Layout.RunInPlace` | synthesize.py:65-110 | the in-place loop leaves the arrays holding `Run` of their initial contents after all iterations |
| `Layout.Iterate` | synthesize.py:66-109 | one loop iteration on the arrays advances them from `Run` after i iterations to `Run` after i + 1 |
| `Layout.BuildRandomizedLayout` | synthesize.py:50-111 | it fails or succeeds as `Layout` does, with the same error; on success it returns two fresh, distinct arrays holding `Layout`'s image and mask, and leaves the caller's arrays unchanged |

## Findings

| source | as written | input that shows it | evidently intended | confidence | as-written member | corrected member |
|---|---|---|---|---|---|---|
| synthesize.py:59 | `create_mask(leaf_src[0])` omits the required `leaf_type` argument, so building the masks raises TypeError | any non-empty leaf list, e.g. one 1×1 cutout of type 0 | `create_mask(leaf_src[0], leaf_src[1])` | high; not executed | `Layout.LeafMasksAsWritten`, `Layout.AsWrittenMaskEncodingFails` | `Layout.LeafMasks` |

## Left out

- `rotate_image` (synthesize.py:26-48) is left out: float trigonometry, `int()` truncation of the bounds and `cv2.warpAffine` resampling. `cv2.resize` (synthesize.py:71-73) is left out too: a float ratio and library interpolation. Both are inside the `warp` parameter. The model only relies on the same transform being applied to a leaf and its mask.
- The exact `COLOR_RGB2GRAY` weights (synthesize.py:19, 92) are left out. Luminance is the `gray` parameter.
- `np.random.seed` and all draws (synthesize.py:56, 71, 76, 83-85) are left out. The per-iteration draws are the input sequence `draws`, so the result is a function of its inputs. The second `rot` draw at synthesize.py:83 is never used. It only advances the random stream, which the model does not have.
- `Layout.BuildRandomizedLayout`: requires every placement to fit inside the background. When a transformed leaf is larger than the canvas, `int(np.random.uniform(0, negative))` at synthesize.py:84-85 gives a non-positive start and the slices at synthesize.py:88-89 misbehave. That case is excluded by the `AllPlaceable` precondition. The transformed leaf and its mask are also required to have the same shape, which `cv2.bitwise_and` and `cv2.add` need.
- `Layout.Layout`, `Layout.Run`, `Layout.RunInPlace`: carry the same placement precondition, for the same reason.
- synthesize.py:67 applies `np.copy` to the `[image, type]` pair instead of the image. As written, numpy 1.24 and later raise ValueError on that inhomogeneous list; older numpy builds an object array, which `cv2.resize` at synthesize.py:72 rejects. The line is only reached once synthesize.py:59 is corrected, and the model then uses the image, as intended. Grids are values, so the copies at synthesize.py:58 and 67-68 are implicit.
- `Layout.Run`: a transformed leaf without pixels would make `cv2.cvtColor` at synthesize.py:92 raise `cv2.error`; the model stamps nothing for it instead. Which transformed leaves are empty depends on `cv2.resize` and `rotate_image`, which are inside `warp`.
- The `__main__` block (synthesize.py:113-144) is left out: JSON config parsing, `cv2.imread` and the BGR→RGB conversion, the random background crop and `plt.imsave`. The `encodings` read at synthesize.py:131 is never used by the code. The model uses the fixed table, as the code does.
- The default arguments `num_iters=15, seed=15` (synthesize.py:50) are not modelled. The number of iterations is `|draws|`.
- A grid with zero rows carries no column count. Leaf types are integers, so a non-integer key (which would also raise KeyError) is not represented.
