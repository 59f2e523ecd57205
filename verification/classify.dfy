/** The shape classification `GetNiftiInfo` keeps in its two flags,
    `is_single_volume` and `is_3D`, as pure functions of the shape. */
module Classify {

  /** `check_if_single_volume`: only a three-dimensional shape counts as a
      single volume at this point. */
  function CheckIfSingleVolume(shape: seq<nat>): bool {
    |shape| == 3
  }

  /** The two flags of a `GetNiftiInfo`. */
  datatype Flags = Flags(isSingleVolume: bool, is3D: bool)

  /** What `check_dims_for_anat` leaves in the flags, given the value
      `is_single_volume` held before: it always sets `is_3D`, and overwrites
      `is_single_volume` only for four-dimensional shapes. */
  function DimsForAnat(shape: seq<nat>, singleBefore: bool): Flags {
    if |shape| == 3 then Flags(singleBefore, true)
    else if |shape| == 4 then Flags(shape[3] == 1, false)
    else Flags(singleBefore, false)
  }

  /** The flags after `__init__`: `check_if_single_volume` first, then
      `check_dims_for_anat`. */
  function FlagsAfterInit(shape: seq<nat>): Flags {
    DimsForAnat(shape, CheckIfSingleVolume(shape))
  }

  /** The final truth table of the two flags. */
  lemma InitTruthTable(shape: seq<nat>)
    ensures FlagsAfterInit(shape).is3D <==> |shape| == 3
    ensures |shape| == 3 ==> FlagsAfterInit(shape).isSingleVolume
    ensures |shape| == 4 ==> (FlagsAfterInit(shape).isSingleVolume <==> shape[3] == 1)
    ensures |shape| != 3 && |shape| != 4 ==> !FlagsAfterInit(shape).isSingleVolume
  {
  }

  /** Running `check_dims_for_anat` again on a constructed object changes
      nothing. */
  lemma DimsForAnatStable(shape: seq<nat>)
    ensures DimsForAnat(shape, FlagsAfterInit(shape).isSingleVolume) == FlagsAfterInit(shape)
  {
  }

  /** An independent reading of a shape: a 3-D volume, a 4-D shape with one
      frame, a 4-D shape with several (or no) frames, or anything else. */
  datatype Kind = ThreeD | FourDSingle | FourDMulti(frames: nat) | Unsupported

  function KindOf(shape: seq<nat>): (k: Kind)
    ensures k.ThreeD? <==> |shape| == 3
    ensures k.Unsupported? <==> |shape| != 3 && |shape| != 4
    ensures k == FourDSingle <==> |shape| == 4 && shape[3] == 1
    ensures k.FourDMulti? <==> |shape| == 4 && shape[3] != 1
    ensures k.FourDMulti? ==> k.frames == shape[3]
  {
    if |shape| == 3 then ThreeD
    else if |shape| == 4 then (if shape[3] == 1 then FourDSingle else FourDMulti(shape[3]))
    else Unsupported
  }

  /** The flags agree with the tagged reading: `is_3D` means a 3-D volume,
      `is_single_volume` means a 3-D volume or a one-frame 4-D shape, and a
      one-frame 4-D shape is single-volume without being 3-D. */
  lemma FlagsMatchKind(shape: seq<nat>)
    ensures FlagsAfterInit(shape).is3D <==> KindOf(shape) == ThreeD
    ensures FlagsAfterInit(shape).isSingleVolume <==> KindOf(shape) in {ThreeD, FourDSingle}
    ensures KindOf(shape) == FourDSingle ==>
      FlagsAfterInit(shape).isSingleVolume && !FlagsAfterInit(shape).is3D
  {
  }
}
