/** The mask encoder: turns a leaf cutout into a solid-colour semantic
    mask whose colour identifies the leaf type. */
module MaskEncoder {
  import opened Pixels

  /** The fixed table from leaf type to mask colour. */
  const Encoding: map<int, Rgb> := map[
    0 := Rgb(255, 0, 0),
    1 := Rgb(0, 255, 0),
    2 := Rgb(0, 0, 255)
  ]

  /** Paints every foreground pixel of `leaf` with the colour of
      `leafType` and every other pixel black. The luminance conversion
      comes first and rejects a cutout without pixels; for any other
      cutout the table lookup follows, so an unknown type fails. */
  function CreateMask(gray: Rgb -> Byte, leaf: Grid, leafType: int): (r: Result<Grid>)
    ensures r.Ok? <==> !IsEmpty(leaf) && leafType in Encoding
    ensures IsEmpty(leaf) ==> r == Err(EmptyImage)
    ensures !IsEmpty(leaf) && leafType !in Encoding ==> r == Err(UnknownLeafType(leafType))
    ensures r.Ok? ==> SameShape(r.value, leaf)
    ensures r.Ok? ==> forall i, j :: InBounds(leaf, i, j) ==>
      (r.value[i][j] == Encoding[leafType] <==> gray(leaf[i][j]) > 10) &&
      (r.value[i][j] == Black <==> gray(leaf[i][j]) <= 10)
  {
    if IsEmpty(leaf) then Err(EmptyImage)
    else if leafType !in Encoding then Err(UnknownLeafType(leafType))
    else
      var colour := Encoding[leafType];
      Ok(seq(|leaf|, i requires 0 <= i < |leaf| =>
           seq(|leaf[i]|, j requires 0 <= j < |leaf[i]| =>
             if ThresholdBinary(gray(leaf[i][j])) > 0 then colour else Black)))
  }

  /** The table knows leaf types 0, 1 and 2 and paints them pure red, green
      and blue; no two leaf types share a colour, and no colour is the
      background. */
  lemma EncodingInjective(s: int, t: int)
    requires s in Encoding && t in Encoding
    ensures Encoding.Keys == {0, 1, 2}
    ensures Encoding[0] == Rgb(MaxVal, 0, 0) && Encoding[1] == Rgb(0, MaxVal, 0) && Encoding[2] == Rgb(0, 0, MaxVal)
    ensures Encoding[s] != Black
    ensures Encoding[s] == Encoding[t] <==> s == t
  {
  }

  /** A mask produced by the encoder holds exactly two colours: black and
      the leaf type's colour. */
  lemma MaskTwoColours(gray: Rgb -> Byte, leaf: Grid, leafType: int)
    requires CreateMask(gray, leaf, leafType).Ok?
    ensures var m := CreateMask(gray, leaf, leafType).value;
      forall i, j :: InBounds(m, i, j) ==> m[i][j] in {Black, Encoding[leafType]}
  {
  }

  /** A non-black mask pixel names the leaf type it came from: two masks
      that agree on a non-black pixel were made for the same type. */
  lemma MaskIdentifiesType(gray: Rgb -> Byte, a: Grid, s: int, i: int, j: int,
                            b: Grid, t: int, k: int, l: int)
    requires CreateMask(gray, a, s).Ok? && CreateMask(gray, b, t).Ok?
    requires InBounds(a, i, j) && InBounds(b, k, l)
    requires CreateMask(gray, a, s).value[i][j] != Black
    requires CreateMask(gray, a, s).value[i][j] == CreateMask(gray, b, t).value[k][l]
    ensures s == t
  {
  }

  /** A mask matches its leaf when it is non-black exactly at the leaf's
      foreground pixels. */
  ghost predicate MatchesLeaf(gray: Rgb -> Byte, leaf: Grid, mask: Grid) {
    SameShape(leaf, mask) &&
    forall i, j :: InBounds(leaf, i, j) ==> (mask[i][j] != Black <==> Foreground(gray, leaf[i][j]))
  }

  /** The encoder's output matches the cutout it was made from. */
  lemma CreateMaskMatchesLeaf(gray: Rgb -> Byte, leaf: Grid, leafType: int)
    requires CreateMask(gray, leaf, leafType).Ok?
    ensures MatchesLeaf(gray, leaf, CreateMask(gray, leaf, leafType).value)
  {
  }
}
