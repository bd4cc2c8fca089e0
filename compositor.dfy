/** The stamp step of the layout compositor: one transformed leaf and its
    mask are pasted into the scene image and the scene mask at a placement
    rectangle, through the luminance foreground of the leaf. */
module Compositor {
  import opened Pixels

  // ---------------------------------------------------------------------
  // Per-pixel arithmetic of the blend
  // ---------------------------------------------------------------------

  /** cv2.bitwise_not on one mask byte: it swaps the two values a
      threshold mask can hold, so a pixel is in exactly one of the mask and
      its inverse. */
  function BitwiseNot(m: Byte): (n: Byte)
    ensures m == 0 ==> n == MaxVal
    ensures m == MaxVal ==> n == 0
    ensures (m == 0 || m == MaxVal) ==> (n != 0 <==> m == 0)
  {
    255 - m
  }

  /** cv2.bitwise_and(p, p, mask=m) on one pixel: p & p is p where the mask
      byte is non-zero, and the freshly allocated output is zero-filled
      elsewhere. */
  function MaskedCopy(p: Rgb, m: Byte): (r: Rgb)
    ensures m != 0 ==> r == p
    ensures m == 0 ==> r == Black
  {
    if m != 0 then p else Black
  }

  /** cv2.add on one uint8 channel: the exact sum while it fits in a byte,
      clipped to 255 when it does not. */
  function AddSaturate(a: Byte, b: Byte): (c: Byte)
    ensures a + b <= 255 ==> c == a + b
    ensures a + b > 255 ==> c == 255
    ensures a <= c && b <= c
  {
    if a + b > 255 then 255 else a + b
  }

  /** cv2.add on one pixel, channel by channel; black is its identity on
      either side. */
  function AddPixels(p: Rgb, q: Rgb): (r: Rgb)
    ensures q == Black ==> r == p
    ensures p == Black ==> r == q
  {
    Rgb(AddSaturate(p.r, q.r), AddSaturate(p.g, q.g), AddSaturate(p.b, q.b))
  }

  /** For a threshold mask byte (0 or 255) one operand of the addition is
      black, so no channel sum exceeds 255 and nothing is clipped. */
  lemma BlendNeverSaturates(under: Rgb, over: Rgb, m: Byte)
    requires m == 0 || m == MaxVal
    ensures var x, y := MaskedCopy(under, BitwiseNot(m)), MaskedCopy(over, m);
      x == Black || y == Black
    ensures var x, y := MaskedCopy(under, BitwiseNot(m)), MaskedCopy(over, m);
      x.r + y.r <= 255 && x.g + y.g <= 255 && x.b + y.b <= 255
  {
  }

  /** What the stamp writes at one pixel: the canvas pixel blacked out by
      the inverse mask, plus the leaf-layer pixel cut out by the mask. For
      a threshold mask byte this is a plain select between the leaf layer
      and the canvas. */
  function Blend(under: Rgb, over: Rgb, m: Byte): (r: Rgb)
    ensures m == MaxVal ==> r == over
    ensures m == 0 ==> r == under
  {
    AddPixels(MaskedCopy(under, BitwiseNot(m)), MaskedCopy(over, m))
  }

  // ---------------------------------------------------------------------
  // One stamp, on grid values
  // ---------------------------------------------------------------------

  /** The scene pixel (i, j) lies in the rectangle of a leaf placed with its
      top-left corner at (dRow, dCol). */
  predicate InRect(leaf: Grid, dRow: int, dCol: int, i: int, j: int) {
    dRow <= i < dRow + |leaf| && dCol <= j < dCol + Width(leaf)
  }

  /** The leaf placed at (dRow, dCol) lies wholly inside the canvas. */
  predicate Fits(leaf: Grid, dRow: int, dCol: int, canvas: Grid) {
    0 <= dRow && dRow + |leaf| <= |canvas| && 0 <= dCol && dCol + Width(leaf) <= Width(canvas)
  }

  /** The stamp writes the scene pixel (i, j): it is in the rectangle and the
      leaf pixel over it is foreground. */
  predicate Covers(gray: Rgb -> Byte, leaf: Grid, dRow: int, dCol: int, i: int, j: int)
    requires IsGrid(leaf)
  {
    InRect(leaf, dRow, dCol, i, j) && Foreground(gray, leaf[i - dRow][j - dCol])
  }

  /** What one stamp leaves at scene pixel (i, j) of one layer whose
      current value there is `under`: `layer` is the leaf itself for the
      image and the leaf mask for the mask, and the threshold mask is
      always that of the leaf. */
  function StampPixel(under: Rgb, gray: Rgb -> Byte, leaf: Grid, layer: Grid, dRow: int, dCol: int, i: int, j: int): Rgb
    requires IsGrid(leaf) && SameShape(leaf, layer)
  {
    if InRect(leaf, dRow, dCol, i, j)
    then Blend(under, layer[i - dRow][j - dCol], ThresholdBinary(gray(leaf[i - dRow][j - dCol])))
    else under
  }

  /** What one stamp leaves in one layer of the scene, computed with the
      blend arithmetic above: the covered pixels take the leaf layer's
      pixel and every other pixel keeps its value. */
  function StampLayer(canvas: Grid, gray: Rgb -> Byte, leaf: Grid, layer: Grid, dRow: int, dCol: int): (r: Grid)
    requires IsGrid(canvas) && IsGrid(leaf) && SameShape(leaf, layer)
    requires Fits(leaf, dRow, dCol, canvas)
    ensures IsGrid(r) && SameShape(r, canvas) && Width(r) == Width(canvas)
    ensures forall i, j :: InBounds(canvas, i, j) ==>
      r[i][j] == if Covers(gray, leaf, dRow, dCol, i, j) then layer[i - dRow][j - dCol] else canvas[i][j]
  {
    var r := seq(|canvas|, i requires 0 <= i < |canvas| =>
      seq(|canvas[i]|, j requires 0 <= j < |canvas[i]| => StampPixel(canvas[i][j], gray, leaf, layer, dRow, dCol, i, j)));
    r
  }

  /** StampLayer is the pixel-wise StampPixel. */
  lemma StampLayerAt(canvas: Grid, gray: Rgb -> Byte, leaf: Grid, layer: Grid, dRow: int, dCol: int, i: int, j: int)
    requires IsGrid(canvas) && IsGrid(leaf) && SameShape(leaf, layer)
    requires Fits(leaf, dRow, dCol, canvas)
    requires InBounds(canvas, i, j)
    ensures StampLayer(canvas, gray, leaf, layer, dRow, dCol)[i][j] == StampPixel(canvas[i][j], gray, leaf, layer, dRow, dCol, i, j)
  {
  }

  /** The scene: the composited image and its paired semantic mask. */
  datatype Scene = Scene(image: Grid, mask: Grid)

  /** Image and mask are rectangular and of the same dimensions. */
  predicate ValidScene(s: Scene) {
    IsGrid(s.image) && IsGrid(s.mask) && SameShape(s.image, s.mask)
  }

  /** A transformed leaf and its mask, ready to be stamped at (dRow, dCol). */
  predicate Placeable(leaf: Grid, leafMask: Grid, dRow: int, dCol: int, canvas: Grid) {
    IsGrid(leaf) && SameShape(leaf, leafMask) && Fits(leaf, dRow, dCol, canvas)
  }

  /** One stamp on both layers, driven by the same foreground. */
  function StampScene(s: Scene, gray: Rgb -> Byte, leaf: Grid, leafMask: Grid, dRow: int, dCol: int): (r: Scene)
    requires ValidScene(s) && Placeable(leaf, leafMask, dRow, dCol, s.image)
    ensures ValidScene(r) && SameShape(r.image, s.image) && Width(r.image) == Width(s.image)
  {
    Scene(StampLayer(s.image, gray, leaf, leaf, dRow, dCol),
          StampLayer(s.mask, gray, leaf, leafMask, dRow, dCol))
  }

  /** Image and mask are written at exactly the same pixels, the covered
      ones; there the image takes the leaf pixel and the mask the leaf-mask
      pixel, and every other pixel of both layers (in particular every
      pixel outside the rectangle) keeps its value. */
  lemma StampSynchronized(s: Scene, gray: Rgb -> Byte, leaf: Grid, leafMask: Grid, dRow: int, dCol: int)
    requires ValidScene(s) && Placeable(leaf, leafMask, dRow, dCol, s.image)
    ensures var r := StampScene(s, gray, leaf, leafMask, dRow, dCol);
      forall i, j :: InBounds(s.image, i, j) ==>
        if Covers(gray, leaf, dRow, dCol, i, j)
        then r.image[i][j] == leaf[i - dRow][j - dCol] && r.mask[i][j] == leafMask[i - dRow][j - dCol]
        else r.image[i][j] == s.image[i][j] && r.mask[i][j] == s.mask[i][j]
  {
  }

  /** Stamping the same leaf at the same place twice is the same as once. */
  lemma {:induction false} StampLayerIdempotent(canvas: Grid, gray: Rgb -> Byte, leaf: Grid, layer: Grid, dRow: int, dCol: int)
    requires IsGrid(canvas) && IsGrid(leaf) && SameShape(leaf, layer)
    requires Fits(leaf, dRow, dCol, canvas)
    ensures var once := StampLayer(canvas, gray, leaf, layer, dRow, dCol);
      StampLayer(once, gray, leaf, layer, dRow, dCol) == once
  {
    var once := StampLayer(canvas, gray, leaf, layer, dRow, dCol);
    var twice := StampLayer(once, gray, leaf, layer, dRow, dCol);
    forall i | 0 <= i < |once| ensures twice[i] == once[i] {
      assert forall j :: 0 <= j < |once[i]| ==> InBounds(canvas, i, j);
    }
  }

  lemma StampSceneIdempotent(s: Scene, gray: Rgb -> Byte, leaf: Grid, leafMask: Grid, dRow: int, dCol: int)
    requires ValidScene(s) && Placeable(leaf, leafMask, dRow, dCol, s.image)
    ensures var once := StampScene(s, gray, leaf, leafMask, dRow, dCol);
      StampScene(once, gray, leaf, leafMask, dRow, dCol) == once
  {
    StampLayerIdempotent(s.image, gray, leaf, leaf, dRow, dCol);
    StampLayerIdempotent(s.mask, gray, leaf, leafMask, dRow, dCol);
  }

  // ---------------------------------------------------------------------
  // One stamp, in place on the scene's pixel arrays
  // ---------------------------------------------------------------------

  /** Overwrites the placement rectangle of `background` and
      `backgroundMask` pixel by pixel with the blend of the old pixel and
      the leaf (resp. leaf-mask) pixel under the leaf's threshold mask. */
  method Stamp(background: array2<Rgb>, backgroundMask: array2<Rgb>, gray: Rgb -> Byte,
               leaf: Grid, leafMask: Grid, dRow: int, dCol: int)
    requires background != backgroundMask
    requires background.Length0 == backgroundMask.Length0 && background.Length1 == backgroundMask.Length1
    requires Placeable(leaf, leafMask, dRow, dCol, Snapshot(background))
    modifies background, backgroundMask
    ensures Snapshot(background) == StampLayer(old(Snapshot(background)), gray, leaf, leaf, dRow, dCol)
    ensures Snapshot(backgroundMask) == StampLayer(old(Snapshot(backgroundMask)), gray, leaf, leafMask, dRow, dCol)
  {
    ghost var image0, mask0 := Snapshot(background), Snapshot(backgroundMask);
    var i := 0;
    while i < |leaf|
      invariant 0 <= i <= |leaf|
      invariant forall r, c :: 0 <= r < background.Length0 && 0 <= c < background.Length1 ==>
        background[r, c] == if r < dRow + i then StampPixel(image0[r][c], gray, leaf, leaf, dRow, dCol, r, c) else image0[r][c]
      invariant forall r, c :: 0 <= r < background.Length0 && 0 <= c < background.Length1 ==>
        backgroundMask[r, c] == if r < dRow + i then StampPixel(mask0[r][c], gray, leaf, leafMask, dRow, dCol, r, c) else mask0[r][c]
    {
      StampRow(background, backgroundMask, gray, leaf, leafMask, dRow, dCol, i, image0, mask0);
      i := i + 1;
    }
    ghost var image1 := StampLayer(image0, gray, leaf, leaf, dRow, dCol);
    ghost var mask1 := StampLayer(mask0, gray, leaf, leafMask, dRow, dCol);
    forall r, c | 0 <= r < background.Length0 && 0 <= c < background.Length1
      ensures background[r, c] == image1[r][c] && backgroundMask[r, c] == mask1[r][c]
    {
      StampLayerAt(image0, gray, leaf, leaf, dRow, dCol, r, c);
      StampLayerAt(mask0, gray, leaf, leafMask, dRow, dCol, r, c);
    }
    SnapshotIs(background, image1);
    SnapshotIs(backgroundMask, mask1);
  }

  /** Row i of the leaf: scene row dRow + i, columns dCol onwards. */
  method StampRow(background: array2<Rgb>, backgroundMask: array2<Rgb>, gray: Rgb -> Byte,
                  leaf: Grid, leafMask: Grid, dRow: int, dCol: int, i: int, ghost image0: Grid, ghost mask0: Grid)
    requires background != backgroundMask
    requires background.Length0 == backgroundMask.Length0 && background.Length1 == backgroundMask.Length1
    requires SameShape(image0, Snapshot(background)) && SameShape(mask0, Snapshot(backgroundMask))
    requires Placeable(leaf, leafMask, dRow, dCol, image0)
    requires 0 <= i < |leaf|
    requires forall r, c :: 0 <= r < background.Length0 && 0 <= c < background.Length1 ==>
      background[r, c] == if r < dRow + i then StampPixel(image0[r][c], gray, leaf, leaf, dRow, dCol, r, c) else image0[r][c]
    requires forall r, c :: 0 <= r < background.Length0 && 0 <= c < background.Length1 ==>
      backgroundMask[r, c] == if r < dRow + i then StampPixel(mask0[r][c], gray, leaf, leafMask, dRow, dCol, r, c) else mask0[r][c]
    modifies background, backgroundMask
    ensures forall r, c :: 0 <= r < background.Length0 && 0 <= c < background.Length1 ==>
      background[r, c] == if r <= dRow + i then StampPixel(image0[r][c], gray, leaf, leaf, dRow, dCol, r, c) else image0[r][c]
    ensures forall r, c :: 0 <= r < background.Length0 && 0 <= c < background.Length1 ==>
      backgroundMask[r, c] == if r <= dRow + i then StampPixel(mask0[r][c], gray, leaf, leafMask, dRow, dCol, r, c) else mask0[r][c]
  {
    var j := 0;
    while j < Width(leaf)
      invariant 0 <= j <= Width(leaf)
      invariant forall r, c :: 0 <= r < background.Length0 && 0 <= c < background.Length1 ==>
        background[r, c] == if r < dRow + i || (r == dRow + i && c < dCol + j)
                            then StampPixel(image0[r][c], gray, leaf, leaf, dRow, dCol, r, c) else image0[r][c]
      invariant forall r, c :: 0 <= r < background.Length0 && 0 <= c < background.Length1 ==>
        backgroundMask[r, c] == if r < dRow + i || (r == dRow + i && c < dCol + j)
                                then StampPixel(mask0[r][c], gray, leaf, leafMask, dRow, dCol, r, c) else mask0[r][c]
    {
      var m := ThresholdBinary(gray(leaf[i][j]));
      var r, c := dRow + i, dCol + j;
      assert background[r, c] == image0[r][c] && backgroundMask[r, c] == mask0[r][c];
      background[r, c] := Blend(background[r, c], leaf[i][j], m);
      backgroundMask[r, c] := Blend(backgroundMask[r, c], leafMask[i][j], m);
      assert background[r, c] == StampPixel(image0[r][c], gray, leaf, leaf, dRow, dCol, r, c);
      assert backgroundMask[r, c] == StampPixel(mask0[r][c], gray, leaf, leafMask, dRow, dCol, r, c);
      j := j + 1;
    }
  }

  /** An array holds a grid when they agree pixel by pixel. */
  lemma SnapshotIs(a: array2<Rgb>, g: Grid)
    requires IsGrid(g) && |g| == a.Length0 && (|g| > 0 ==> Width(g) == a.Length1)
    requires forall r, c :: 0 <= r < a.Length0 && 0 <= c < a.Length1 ==> a[r, c] == g[r][c]
    ensures Snapshot(a) == g
  {
    var s := Snapshot(a);
    forall r | 0 <= r < |g| ensures s[r] == g[r] { }
  }
}
