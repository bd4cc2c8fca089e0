/** The layout compositor's driver: encode every leaf's mask once, clone
    the background pair, then stamp one transformed leaf per iteration,
    choosing the leaves round robin. */
module Layout {
  import opened Pixels
  import opened MaskEncoder
  import opened Compositor

  /** A leaf cutout and its leaf type, as supplied by the caller. */
  datatype LeafSample = LeafSample(image: Grid, leafType: int)

  /** The random draws of one iteration: the resize ratio, the rotation
      angle and the top-left placement of the transformed leaf. */
  datatype Draw = Draw(ratio: real, angle: int, dRow: int, dCol: int)

  // ---------------------------------------------------------------------
  // Leaf selection
  // ---------------------------------------------------------------------

  /** The leaf used at iteration i of n leaves. */
  function LeafIndex(n: nat, i: nat): (k: nat)
    requires n > 0
    ensures k < n
  {
    i % n
  }

  /** Selection is round robin: the first n iterations use leaves 0, 1, ...,
      n - 1 in order, each iteration moves to the next leaf and wraps after
      the last, and the order repeats with period n. */
  lemma {:induction false} RoundRobin(n: nat, i: nat)
    requires n > 0
    ensures i < n ==> LeafIndex(n, i) == i
    ensures LeafIndex(n, i + 1) == if LeafIndex(n, i) == n - 1 then 0 else LeafIndex(n, i) + 1
    ensures LeafIndex(n, i + n) == LeafIndex(n, i)
  {
    var q, k := i / n, i % n;
    if i < n {
      ModUnique(i, n, 0, i);
    }
    if k == n - 1 {
      ModUnique(i + 1, n, q + 1, 0);
    } else {
      ModUnique(i + 1, n, q, k + 1);
    }
    ModUnique(i + n, n, q + 1, k);
  }

  /** Euclidean division is unique: quotient q and remainder k in [0, n). */
  lemma {:induction false} ModUnique(i: int, n: int, q: int, k: int)
    requires n > 0 && 0 <= k < n && i == q * n + k
    ensures i % n == k
  {
    var q', k' := i / n, i % n;
    assert (q - q') * n == k' - k;
    if q > q' {
      MulAtLeast(q - q', n);
    } else if q < q' {
      MulAtLeast(q' - q, n);
    }
  }

  lemma MulAtLeast(a: int, n: int)
    requires a >= 1 && n > 0
    ensures a * n >= n
  {
  }

  // ---------------------------------------------------------------------
  // Mask encoding of all leaves, before the loop
  // ---------------------------------------------------------------------

  /** The encoder accepts the leaf: its cutout has pixels and its type is
      in the encoding table. */
  predicate LeafOk(leaf: LeafSample) {
    !IsEmpty(leaf.image) && leaf.leafType in Encoding
  }

  /** The exception the encoder raises for a leaf it rejects: the
      luminance conversion of an empty cutout fails first, otherwise the
      table lookup. */
  function LeafError(leaf: LeafSample): Error {
    if IsEmpty(leaf.image) then EmptyImage else UnknownLeafType(leaf.leafType)
  }

  /** The masks of all leaves, in order, or the exception of the first
      leaf the encoder rejects. */
  function LeafMasks(gray: Rgb -> Byte, leaves: seq<LeafSample>): (r: Result<seq<Grid>>)
    ensures r.Ok? <==> forall k :: 0 <= k < |leaves| ==> LeafOk(leaves[k])
    ensures r.Ok? ==> (|r.value| == |leaves| &&
      forall k :: 0 <= k < |leaves| ==> r.value[k] == CreateMask(gray, leaves[k].image, leaves[k].leafType).value)
    ensures r.Err? ==>
      exists k :: 0 <= k < |leaves| && !LeafOk(leaves[k]) && r.error == LeafError(leaves[k]) &&
        forall l :: 0 <= l < k ==> LeafOk(leaves[l])
    decreases |leaves|
  {
    if |leaves| == 0 then Ok([])
    else
      match CreateMask(gray, leaves[0].image, leaves[0].leafType)
      case Err(e) => Err(e)
      case Ok(m) =>
        var rest := LeafMasks(gray, leaves[1..]);
        if rest.Err? then
          assert forall k :: 1 <= k < |leaves| ==> leaves[k] == leaves[1..][k - 1];
          Err(rest.error)
        else
          assert forall k :: 1 <= k < |leaves| ==> leaves[k] == leaves[1..][k - 1];
          Ok([m] + rest.value)
  }

  /** The mask encoding as line 59 writes it: `create_mask` is called
      without its leaf-type argument, which raises a TypeError on the
      first leaf. */
  function LeafMasksAsWritten(leaves: seq<LeafSample>): (r: Result<seq<Grid>>)
    ensures |leaves| > 0 ==> r == Err(MissingArgument)
    ensures r.Ok? ==> r.value == []
  {
    if |leaves| == 0 then Ok([]) else Err(MissingArgument)
  }

  /** One cutout of a known type shows the discrepancy: the encoding as
      written fails, the intended one succeeds with one mask. */
  lemma AsWrittenMaskEncodingFails(gray: Rgb -> Byte)
    ensures var leaves := [LeafSample([[Black]], 0)];
      LeafMasksAsWritten(leaves).Err? &&
      LeafMasks(gray, leaves).Ok? && |LeafMasks(gray, leaves).value| == 1
  {
  }

  // ---------------------------------------------------------------------
  // The iterations, on grid values
  // ---------------------------------------------------------------------

  /** The leaf stamped at iteration i: the round-robin leaf, resized and
      rotated by `warp` with that iteration's draws. The first n
      iterations take leaves 0..n-1 in order, and every later iteration
      takes the leaf of n iterations before it. */
  function IterLeaf(leaves: seq<LeafSample>, draws: seq<Draw>, warp: (Grid, Draw) -> Grid, i: nat): (r: Grid)
    requires |leaves| > 0 && i < |draws|
    ensures i < |leaves| ==> r == warp(leaves[i].image, draws[i])
    ensures i >= |leaves| ==> r == warp(leaves[LeafIndex(|leaves|, i - |leaves|)].image, draws[i])
  {
    RoundRobin(|leaves|, i);
    if i >= |leaves| then RoundRobin(|leaves|, i - |leaves|); warp(leaves[LeafIndex(|leaves|, i)].image, draws[i])
    else warp(leaves[LeafIndex(|leaves|, i)].image, draws[i])
  }

  /** The leaf mask stamped at iteration i: the round-robin mask, put
      through the same resize and rotation, with the same leaf order. */
  function IterMask(masks: seq<Grid>, draws: seq<Draw>, warp: (Grid, Draw) -> Grid, i: nat): (r: Grid)
    requires |masks| > 0 && i < |draws|
    ensures i < |masks| ==> r == warp(masks[i], draws[i])
    ensures i >= |masks| ==> r == warp(masks[LeafIndex(|masks|, i - |masks|)], draws[i])
  {
    RoundRobin(|masks|, i);
    if i >= |masks| then RoundRobin(|masks|, i - |masks|); warp(masks[LeafIndex(|masks|, i)], draws[i])
    else warp(masks[LeafIndex(|masks|, i)], draws[i])
  }

  /** Each iteration stamps one leaf together with that same leaf's encoder
      mask, both put through the same transform. */
  lemma IterPairsLeafWithItsMask(gray: Rgb -> Byte, leaves: seq<LeafSample>, draws: seq<Draw>,
                                 warp: (Grid, Draw) -> Grid, i: nat)
    requires |leaves| > 0 && i < |draws| && LeafMasks(gray, leaves).Ok?
    ensures exists k :: (0 <= k < |leaves| &&
      IterLeaf(leaves, draws, warp, i) == warp(leaves[k].image, draws[i]) &&
      IterMask(LeafMasks(gray, leaves).value, draws, warp, i) ==
        warp(CreateMask(gray, leaves[k].image, leaves[k].leafType).value, draws[i]))
  {
    var k := LeafIndex(|leaves|, i);
    assert IterLeaf(leaves, draws, warp, i) == warp(leaves[k].image, draws[i]);
  }

  /** Every iteration's transformed leaf and mask have one shape and fit
      inside the canvas at that iteration's placement. */
  predicate AllPlaceable(leaves: seq<LeafSample>, masks: seq<Grid>, draws: seq<Draw>,
                         warp: (Grid, Draw) -> Grid, canvas: Grid)
    requires |masks| == |leaves|
  {
    |leaves| > 0 ==>
      forall i :: 0 <= i < |draws| ==>
        Placeable(IterLeaf(leaves, draws, warp, i), IterMask(masks, draws, warp, i),
                  draws[i].dRow, draws[i].dCol, canvas)
  }

  /** The scene after the first k iterations. */
  function Run(s0: Scene, gray: Rgb -> Byte, leaves: seq<LeafSample>, masks: seq<Grid>,
               draws: seq<Draw>, warp: (Grid, Draw) -> Grid, k: nat): (s: Scene)
    requires ValidScene(s0) && |masks| == |leaves| && k <= |draws|
    requires |leaves| > 0 || k == 0
    requires AllPlaceable(leaves, masks, draws, warp, s0.image)
    ensures ValidScene(s) && SameShape(s.image, s0.image) && SameShape(s.mask, s0.mask)
    ensures Width(s.image) == Width(s0.image)
    decreases k
  {
    if k == 0 then s0
    else
      var d := draws[k - 1];
      StampScene(Run(s0, gray, leaves, masks, draws, warp, k - 1), gray,
                 IterLeaf(leaves, draws, warp, k - 1), IterMask(masks, draws, warp, k - 1), d.dRow, d.dCol)
  }

  /** Some leaf is rejected by the encoder. */
  predicate HasBadLeaf(leaves: seq<LeafSample>) {
    exists k :: 0 <= k < |leaves| && !LeafOk(leaves[k])
  }

  /** The whole layout: the encoder's exception for the first rejected
      leaf (raised before any iteration), a ZeroDivisionError for an empty
      leaf list when at least one iteration runs, and otherwise the scene
      after all iterations, of the background's dimensions. */
  function Layout(gray: Rgb -> Byte, leaves: seq<LeafSample>, background: Grid, backgroundMask: Grid,
                  draws: seq<Draw>, warp: (Grid, Draw) -> Grid): (r: Result<Scene>)
    requires ValidScene(Scene(background, backgroundMask))
    requires LeafMasks(gray, leaves).Ok? ==>
      AllPlaceable(leaves, LeafMasks(gray, leaves).value, draws, warp, background)
    ensures r.Err? <==> HasBadLeaf(leaves) || (|leaves| == 0 && |draws| > 0)
    ensures r.Err? && HasBadLeaf(leaves) ==>
      exists k :: 0 <= k < |leaves| && !LeafOk(leaves[k]) && r.error == LeafError(leaves[k]) &&
        forall l :: 0 <= l < k ==> LeafOk(leaves[l])
    ensures r.Err? && !HasBadLeaf(leaves) ==> r.error == NoLeaves
    ensures r.Ok? ==> (ValidScene(r.value) && SameShape(r.value.image, background) &&
      SameShape(r.value.mask, backgroundMask) && Width(r.value.image) == Width(background))
  {
    match LeafMasks(gray, leaves)
    case Err(e) => Err(e)
    case Ok(masks) =>
      if |leaves| == 0 && |draws| > 0 then Err(NoLeaves)
      else Ok(Run(Scene(background, backgroundMask), gray, leaves, masks, draws, warp, |draws|))
  }

  // ---------------------------------------------------------------------
  // What the iterations keep
  // ---------------------------------------------------------------------

  /** A pixel outside every placement rectangle of the first k iterations
      keeps its original value in both the image and the mask. */
  lemma {:induction false} RunOutsideUnchanged(s0: Scene, gray: Rgb -> Byte, leaves: seq<LeafSample>, masks: seq<Grid>,
                                               draws: seq<Draw>, warp: (Grid, Draw) -> Grid, k: nat, i: int, j: int)
    requires ValidScene(s0) && |masks| == |leaves| && k <= |draws|
    requires |leaves| > 0 || k == 0
    requires AllPlaceable(leaves, masks, draws, warp, s0.image)
    requires InBounds(s0.image, i, j)
    requires forall t :: 0 <= t < k ==> !InRect(IterLeaf(leaves, draws, warp, t), draws[t].dRow, draws[t].dCol, i, j)
    ensures var s := Run(s0, gray, leaves, masks, draws, warp, k);
      s.image[i][j] == s0.image[i][j] && s.mask[i][j] == s0.mask[i][j]
  {
    if k > 0 {
      RunOutsideUnchanged(s0, gray, leaves, masks, draws, warp, k - 1, i, j);
      var prev := Run(s0, gray, leaves, masks, draws, warp, k - 1);
      var d := draws[k - 1];
      StampSynchronized(prev, gray, IterLeaf(leaves, draws, warp, k - 1), IterMask(masks, draws, warp, k - 1), d.dRow, d.dCol);
    }
  }

  /** After k iterations a pixel that no iteration wrote (its leaf pixel
      was background, or it lay outside the rectangle) holds its original
      value in both layers. */
  lemma {:induction false} RunUnwrittenUnchanged(s0: Scene, gray: Rgb -> Byte, leaves: seq<LeafSample>, masks: seq<Grid>,
                                                 draws: seq<Draw>, warp: (Grid, Draw) -> Grid, k: nat, i: int, j: int)
    requires ValidScene(s0) && |masks| == |leaves| && k <= |draws|
    requires |leaves| > 0 || k == 0
    requires AllPlaceable(leaves, masks, draws, warp, s0.image)
    requires InBounds(s0.image, i, j)
    requires forall t :: 0 <= t < k ==> !WrittenBy(gray, leaves, masks, draws, warp, s0.image, t, i, j)
    ensures var s := Run(s0, gray, leaves, masks, draws, warp, k);
      s.image[i][j] == s0.image[i][j] && s.mask[i][j] == s0.mask[i][j]
  {
    if k > 0 {
      RunUnwrittenUnchanged(s0, gray, leaves, masks, draws, warp, k - 1, i, j);
      var prev := Run(s0, gray, leaves, masks, draws, warp, k - 1);
      var d := draws[k - 1];
      StampSynchronized(prev, gray, IterLeaf(leaves, draws, warp, k - 1), IterMask(masks, draws, warp, k - 1), d.dRow, d.dCol);
      assert !WrittenBy(gray, leaves, masks, draws, warp, s0.image, k - 1, i, j);
    }
  }

  /** Image and mask never desynchronise: after k iterations a pixel last
      written by iteration t holds t's leaf pixel in the image and t's
      leaf-mask pixel in the mask, at the same offset. */
  lemma {:induction false} RunPixelProvenance(s0: Scene, gray: Rgb -> Byte, leaves: seq<LeafSample>, masks: seq<Grid>,
                                              draws: seq<Draw>, warp: (Grid, Draw) -> Grid, k: nat, i: int, j: int)
    requires ValidScene(s0) && |masks| == |leaves| && k <= |draws|
    requires |leaves| > 0 || k == 0
    requires AllPlaceable(leaves, masks, draws, warp, s0.image)
    requires InBounds(s0.image, i, j)
    ensures var s := Run(s0, gray, leaves, masks, draws, warp, k);
      forall t :: LastWriter(gray, leaves, masks, draws, warp, s0.image, k, t, i, j) ==>
        s.image[i][j] == IterLeaf(leaves, draws, warp, t)[i - draws[t].dRow][j - draws[t].dCol] &&
        s.mask[i][j] == IterMask(masks, draws, warp, t)[i - draws[t].dRow][j - draws[t].dCol]
  {
    if k > 0 {
      RunPixelProvenance(s0, gray, leaves, masks, draws, warp, k - 1, i, j);
      var prev := Run(s0, gray, leaves, masks, draws, warp, k - 1);
      var s := Run(s0, gray, leaves, masks, draws, warp, k);
      var d := draws[k - 1];
      var leaf, leafMask := IterLeaf(leaves, draws, warp, k - 1), IterMask(masks, draws, warp, k - 1);
      StampSynchronized(prev, gray, leaf, leafMask, d.dRow, d.dCol);
      if WrittenBy(gray, leaves, masks, draws, warp, s0.image, k - 1, i, j) {
        assert s.image[i][j] == leaf[i - d.dRow][j - d.dCol] && s.mask[i][j] == leafMask[i - d.dRow][j - d.dCol];
        forall t | LastWriter(gray, leaves, masks, draws, warp, s0.image, k, t, i, j)
          ensures s.image[i][j] == IterLeaf(leaves, draws, warp, t)[i - draws[t].dRow][j - draws[t].dCol]
          ensures s.mask[i][j] == IterMask(masks, draws, warp, t)[i - draws[t].dRow][j - draws[t].dCol]
        {
          assert t == k - 1;
        }
      } else {
        assert s.image[i][j] == prev.image[i][j] && s.mask[i][j] == prev.mask[i][j];
        forall t | LastWriter(gray, leaves, masks, draws, warp, s0.image, k, t, i, j)
          ensures s.image[i][j] == IterLeaf(leaves, draws, warp, t)[i - draws[t].dRow][j - draws[t].dCol]
          ensures s.mask[i][j] == IterMask(masks, draws, warp, t)[i - draws[t].dRow][j - draws[t].dCol]
        {
          assert t != k - 1;
          assert LastWriter(gray, leaves, masks, draws, warp, s0.image, k - 1, t, i, j);
        }
      }
    }
  }

  /** Among the first k iterations, t is the last whose stamp writes scene
      pixel (i, j). */
  predicate LastWriter(gray: Rgb -> Byte, leaves: seq<LeafSample>, masks: seq<Grid>, draws: seq<Draw>,
                       warp: (Grid, Draw) -> Grid, canvas: Grid, k: int, t: int, i: int, j: int)
    requires |masks| == |leaves| && AllPlaceable(leaves, masks, draws, warp, canvas)
  {
    0 <= t < k && WrittenBy(gray, leaves, masks, draws, warp, canvas, t, i, j) &&
    forall u :: t < u < k ==> !WrittenBy(gray, leaves, masks, draws, warp, canvas, u, i, j)
  }

  /** Iteration t's stamp writes scene pixel (i, j). */
  predicate WrittenBy(gray: Rgb -> Byte, leaves: seq<LeafSample>, masks: seq<Grid>, draws: seq<Draw>,
                      warp: (Grid, Draw) -> Grid, canvas: Grid, t: int, i: int, j: int)
    requires |masks| == |leaves| && AllPlaceable(leaves, masks, draws, warp, canvas)
  {
    |leaves| > 0 && 0 <= t < |draws| &&
    Covers(gray, IterLeaf(leaves, draws, warp, t), draws[t].dRow, draws[t].dCol, i, j)
  }

  /** Every non-black mask pixel lies on a foreground image pixel. */
  ghost predicate MaskOnForeground(gray: Rgb -> Byte, s: Scene)
    requires ValidScene(s)
  {
    forall i, j :: InBounds(s.image, i, j) && s.mask[i][j] != Black ==> Foreground(gray, s.image[i][j])
  }

  /** Stamping keeps "mask implies foreground", whatever the leaf masks
      hold: a written pixel takes a foreground leaf pixel. */
  lemma {:induction false} RunKeepsMaskOnForeground(s0: Scene, gray: Rgb -> Byte, leaves: seq<LeafSample>, masks: seq<Grid>,
                                                    draws: seq<Draw>, warp: (Grid, Draw) -> Grid, k: nat)
    requires ValidScene(s0) && |masks| == |leaves| && k <= |draws|
    requires |leaves| > 0 || k == 0
    requires AllPlaceable(leaves, masks, draws, warp, s0.image)
    requires MaskOnForeground(gray, s0)
    ensures MaskOnForeground(gray, Run(s0, gray, leaves, masks, draws, warp, k))
  {
    if k > 0 {
      RunKeepsMaskOnForeground(s0, gray, leaves, masks, draws, warp, k - 1);
      var prev := Run(s0, gray, leaves, masks, draws, warp, k - 1);
      var d := draws[k - 1];
      StampSynchronized(prev, gray, IterLeaf(leaves, draws, warp, k - 1), IterMask(masks, draws, warp, k - 1), d.dRow, d.dCol);
    }
  }

  /** The mask is non-black exactly at the foreground pixels of the image. */
  ghost predicate Synchronized(gray: Rgb -> Byte, s: Scene)
    requires ValidScene(s)
  {
    forall i, j :: InBounds(s.image, i, j) ==> (s.mask[i][j] != Black <==> Foreground(gray, s.image[i][j]))
  }

  /** When every transformed leaf mask matches its transformed leaf (as an
      encoder output matches its cutout), stamping keeps image and mask in
      exact agreement. */
  lemma {:induction false} RunKeepsSynchronized(s0: Scene, gray: Rgb -> Byte, leaves: seq<LeafSample>, masks: seq<Grid>,
                                                draws: seq<Draw>, warp: (Grid, Draw) -> Grid, k: nat)
    requires ValidScene(s0) && |masks| == |leaves| && k <= |draws|
    requires |leaves| > 0 || k == 0
    requires AllPlaceable(leaves, masks, draws, warp, s0.image)
    requires forall t :: 0 <= t < k ==>
      MatchesLeaf(gray, IterLeaf(leaves, draws, warp, t), IterMask(masks, draws, warp, t))
    requires Synchronized(gray, s0)
    ensures Synchronized(gray, Run(s0, gray, leaves, masks, draws, warp, k))
  {
    if k > 0 {
      RunKeepsSynchronized(s0, gray, leaves, masks, draws, warp, k - 1);
      var prev := Run(s0, gray, leaves, masks, draws, warp, k - 1);
      var d := draws[k - 1];
      var leaf, leafMask := IterLeaf(leaves, draws, warp, k - 1), IterMask(masks, draws, warp, k - 1);
      StampSynchronized(prev, gray, leaf, leafMask, d.dRow, d.dCol);
      var s := Run(s0, gray, leaves, masks, draws, warp, k);
      forall i, j | InBounds(s.image, i, j)
        ensures s.mask[i][j] != Black <==> Foreground(gray, s.image[i][j])
      {
        if Covers(gray, leaf, d.dRow, d.dCol, i, j) {
          assert InBounds(leaf, i - d.dRow, j - d.dCol);
        }
      }
    }
  }

  /** The transform that neither resizes nor rotates (ratio 1, angle 0
      without resampling). */
  function NoWarp(g: Grid, d: Draw): Grid {
    g
  }

  /** Without resampling the masks the encoder made match their leaves, so
      a background pair whose mask is non-black exactly on its foreground
      stays that way through the whole layout. */
  lemma {:induction false} LayoutSynchronizedWithoutResampling(gray: Rgb -> Byte, leaves: seq<LeafSample>,
                                                               background: Grid, backgroundMask: Grid, draws: seq<Draw>)
    requires ValidScene(Scene(background, backgroundMask))
    requires LeafMasks(gray, leaves).Ok? ==>
      AllPlaceable(leaves, LeafMasks(gray, leaves).value, draws, NoWarp, background)
    requires Synchronized(gray, Scene(background, backgroundMask))
    requires Layout(gray, leaves, background, backgroundMask, draws, NoWarp).Ok?
    ensures Synchronized(gray, Layout(gray, leaves, background, backgroundMask, draws, NoWarp).value)
  {
    var masks := LeafMasks(gray, leaves).value;
    if |leaves| > 0 {
      forall t | 0 <= t < |draws|
        ensures MatchesLeaf(gray, IterLeaf(leaves, draws, NoWarp, t), IterMask(masks, draws, NoWarp, t))
      {
        var k := LeafIndex(|leaves|, t);
        CreateMaskMatchesLeaf(gray, leaves[k].image, leaves[k].leafType);
      }
    }
    RunKeepsSynchronized(Scene(background, backgroundMask), gray, leaves, masks, draws, NoWarp, |draws|);
  }

  // ---------------------------------------------------------------------
  // The iterations, in place
  // ---------------------------------------------------------------------

  /** The pair of working arrays handed back to the caller. */
  datatype Canvas = Canvas(background: array2<Rgb>, backgroundMask: array2<Rgb>)

  /** np.copy of an image: a fresh array with the same pixels. */
  method CopyImage(src: array2<Rgb>) returns (dst: array2<Rgb>)
    ensures fresh(dst)
    ensures dst.Length0 == src.Length0 && dst.Length1 == src.Length1
    ensures Snapshot(dst) == Snapshot(src)
  {
    dst := new Rgb[src.Length0, src.Length1]((i, j) requires 0 <= i < src.Length0 && 0 <= j < src.Length1 reads src => src[i, j]);
    SnapshotIs(dst, Snapshot(src));
  }

  /** Builds one synthetic scene: encodes the leaf masks, clones the
      background pair, and stamps |draws| transformed leaves into the
      clones. The caller's arrays are left untouched. */
  method BuildRandomizedLayout(gray: Rgb -> Byte, leavesSrc: seq<LeafSample>,
                               backgroundSrc: array2<Rgb>, backgroundMaskSrc: array2<Rgb>,
                               draws: seq<Draw>, warp: (Grid, Draw) -> Grid)
    returns (r: Result<Canvas>)
    requires backgroundSrc.Length0 == backgroundMaskSrc.Length0 && backgroundSrc.Length1 == backgroundMaskSrc.Length1
    requires LeafMasks(gray, leavesSrc).Ok? ==>
      AllPlaceable(leavesSrc, LeafMasks(gray, leavesSrc).value, draws, warp, Snapshot(backgroundSrc))
    ensures ValidScene(Scene(Snapshot(backgroundSrc), Snapshot(backgroundMaskSrc)))
    ensures var spec := Layout(gray, leavesSrc, Snapshot(backgroundSrc), Snapshot(backgroundMaskSrc), draws, warp);
      (r.Err? <==> spec.Err?) && (r.Err? ==> r.error == spec.error) &&
      (r.Ok? ==> fresh(r.value.background) && fresh(r.value.backgroundMask) &&
                 r.value.background != r.value.backgroundMask &&
                 Snapshot(r.value.background) == spec.value.image &&
                 Snapshot(r.value.backgroundMask) == spec.value.mask)
    ensures unchanged(backgroundSrc) && unchanged(backgroundMaskSrc)
  {
    var masksOrError := LeafMasks(gray, leavesSrc);
    if masksOrError.Err? {
      return Err(masksOrError.error);
    }
    var masks := masksOrError.value;
    if |leavesSrc| == 0 && |draws| > 0 {
      return Err(NoLeaves);
    }
    var background := CopyImage(backgroundSrc);
    var backgroundMask := CopyImage(backgroundMaskSrc);
    if |draws| > 0 {
      RunInPlace(background, backgroundMask, gray, leavesSrc, masks, draws, warp);
    }
    return Ok(Canvas(background, backgroundMask));
  }

  /** The loop over the iterations, on the working arrays. */
  method RunInPlace(background: array2<Rgb>, backgroundMask: array2<Rgb>, gray: Rgb -> Byte,
                    leaves: seq<LeafSample>, masks: seq<Grid>, draws: seq<Draw>, warp: (Grid, Draw) -> Grid)
    requires background != backgroundMask
    requires background.Length0 == backgroundMask.Length0 && background.Length1 == backgroundMask.Length1
    requires |leaves| > 0 && |masks| == |leaves|
    requires AllPlaceable(leaves, masks, draws, warp, Snapshot(background))
    modifies background, backgroundMask
    ensures ValidScene(old(Scene(Snapshot(background), Snapshot(backgroundMask))))
    ensures Scene(Snapshot(background), Snapshot(backgroundMask)) ==
      Run(old(Scene(Snapshot(background), Snapshot(backgroundMask))), gray, leaves, masks, draws, warp, |draws|)
  {
    ghost var s0 := Scene(Snapshot(background), Snapshot(backgroundMask));
    var i := 0;
    while i < |draws|
      invariant 0 <= i <= |draws|
      invariant Scene(Snapshot(background), Snapshot(backgroundMask)) == Run(s0, gray, leaves, masks, draws, warp, i)
    {
      Iterate(background, backgroundMask, gray, leaves, masks, draws, warp, s0, i);
      i := i + 1;
    }
  }

  /** Iteration i of the loop: stamps the round-robin leaf and its mask,
      both transformed with the iteration's draws, into the working arrays. */
  method Iterate(background: array2<Rgb>, backgroundMask: array2<Rgb>, gray: Rgb -> Byte,
                 leaves: seq<LeafSample>, masks: seq<Grid>, draws: seq<Draw>, warp: (Grid, Draw) -> Grid,
                 ghost s0: Scene, i: nat)
    requires background != backgroundMask
    requires background.Length0 == backgroundMask.Length0 && background.Length1 == backgroundMask.Length1
    requires |leaves| > 0 && |masks| == |leaves| && i < |draws|
    requires ValidScene(s0) && AllPlaceable(leaves, masks, draws, warp, s0.image)
    requires Scene(Snapshot(background), Snapshot(backgroundMask)) == Run(s0, gray, leaves, masks, draws, warp, i)
    modifies background, backgroundMask
    ensures Scene(Snapshot(background), Snapshot(backgroundMask)) == Run(s0, gray, leaves, masks, draws, warp, i + 1)
  {
    var idx := i % |leaves|;
    var leaf := warp(leaves[idx].image, draws[i]);
    var leafMask := warp(masks[idx], draws[i]);
    assert leaf == IterLeaf(leaves, draws, warp, i) && leafMask == IterMask(masks, draws, warp, i);
    assert Placeable(leaf, leafMask, draws[i].dRow, draws[i].dCol, s0.image);
    Stamp(background, backgroundMask, gray, leaf, leafMask, draws[i].dRow, draws[i].dCol);
  }
}
