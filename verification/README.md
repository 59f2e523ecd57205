# nifti_fixer in Dafny

A model of `niftifixer.py`. This script finds T1-weighted NIfTI images in a BIDS-style tree and
splits any that hold more than one volume into one file per frame. Three parts are modelled:

- **`locate_t1ws`** (`Locator`): the walk over a directory tree that keeps every file named
  `*_T1w.nii.gz` or `*_T1w.nii` and records it as `root + '/' + file`. The walk is given as a
  sequence of `(root, files)` steps. `LocateT1ws` is a method with nested loops, proved against
  the function `T1wPaths`.
- **`GetNiftiInfo`** (`NiftiInfo`, `Classify`): a class holding the path, the loaded image, its
  shape and voxel sizes, and the two flags `is_single_volume` and `is_3D`.
  - The constructor runs `check_if_single_volume` and then `check_dims_for_anat`, in the
    source's order. The second call may overwrite the first flag.
  - The final truth table is proved. `Classify` also checks it against an independent reading
    of the shape (`Kind`).
- **`make_t1w_3D`** (`NiftiInfo`, `Splitting`, `Storage`): splits a multi-volume image into one
  file per frame.
  - The filesystem is a class over `map<string, Image>`, and the method updates it in place.
  - What the method does is specified by a plan of effects (`Save` / `Unlink`) and the function
    `Exec` that runs such a plan.
  - The output names copy Python's string behaviour (`PyStrings`):
    - `str.replace` replaces every occurrence, across the whole path, directories included (`Splitting.OutNameLabelsEvery`);
    - the `_T1w` test looks only at `pathlib.Path(...).name`;
    - the run label is the literal `_run-0` followed by `str(frame + 1)`, so frame 9 is
      labelled `_run-010`.
  - Errors are `Result` values:
    - `IndexError` when a non-single-volume image has fewer than four axes, or when
      `first_run_only` is set on a shape with zero frames. Either way it is raised before
      anything is written.
    - `FileNotFound` when the original has gone by the time it is unlinked. This happens after
      the frame files are written.

`first_run_only` is modelled as the Python text reads, with the loaded image held as a value (see
"Left out" for what nibabel's lazy loading changes). The one frame is written to the input path with
every `_run-01` removed, and the input path is then unlinked. For a path without `_run-01`, that
frame is written over the original and then deleted with it (`Splitting.FirstRunOnlyLosesFrame`).

## Model

| member | source | states |
|---|---|---|
| Locator.LocateT1ws | niftifixer.py:7-13 | the nested loops over the walk's steps and their file names return exactly `T1wPaths(walk)` |
| Locator.T1wPathsMembers | niftifixer.py:8-13 | an empty walk gives an empty list; a path is in the result iff it is `root + '/' + file` for some step and some file of it ending in `_T1w.nii.gz` or `_T1w.nii` |
| Locator.KeptInMembers | niftifixer.py:10-12 | within one step, a path is kept iff it joins the root with a T1w file name of that step |
| Locator.T1wPathsAppend | niftifixer.py:9-12 | walk order is kept: the result for `w1 + w2` is the result for `w1` followed by the result for `w2` |
| Locator.T1wPathsEndWithSuffix | niftifixer.py:11-12 | every recorded path ends in `_T1w.nii.gz` or `_T1w.nii` |
| Classify.InitTruthTable | niftifixer.py:21-22 | after construction: `is_3D` iff the shape has 3 axes; `is_single_volume` is true for 3 axes, `shape[3] == 1` for 4 axes, and false for any other length |
| Classify.DimsForAnatStable | niftifixer.py:28-42 | calling `check_dims_for_anat` again on a constructed object leaves both flags as they are |
| Classify.KindOf | niftifixer.py:28-48 | the independent reading tags exactly the 3-axis shapes as 3-D, the 4-axis shapes with one frame as single 4-D, the other 4-axis shapes as multi-frame 4-D with `shape[3]` frames, and every other length as unsupported |
| Classify.FlagsMatchKind | niftifixer.py:21-22 | the flags agree with the independent reading: `is_3D` iff 3-D; `is_single_volume` iff 3-D or a 4-D shape with one frame; a 4-D shape with one frame is single-volume but not 3-D |
| NiftiInfo.GetNiftiInfo.constructor | niftifixer.py:16-22 | the path, image, shape and voxel sizes are stored, and the two flags follow the truth table above |
| NiftiInfo.GetNiftiInfo.CheckDimsForAnat | niftifixer.py:28-42 | returns the value it stores in `is_3D`, which is true iff the shape has 3 axes; overwrites `is_single_volume` with `shape[3] == 1` for 4-axis shapes only; keeps the object valid |
| NiftiInfo.GetNiftiInfo.MakeT1w3D | niftifixer.py:50-80 | a single volume returns the loaded image and leaves the files alone; otherwise the new file map is what running `SplitPlan` gives, an error leaves it untouched, and the result is `None`, `IndexError` or `FileNotFound` accordingly |
| NiftiInfo.Open | niftifixer.py:16-22 | loading succeeds iff a file is stored at the path, and then gives a fresh, valid object over that image |
| NiftiInfo.LocatedPathNames | niftifixer.py:11-12 | a path recorded by the locator takes the `_T1w` naming branch; each frame of it gets a name different from the path and from every other frame's |
| Splitting.SliceShape | niftifixer.py:68 | `data[:, :, :, f]` drops axis 3: the first three axes are kept and later axes shift down by one |
| Splitting.SplitPlanErrors | niftifixer.py:51-59 | a single volume plans nothing; otherwise the call fails iff the shape has fewer than 4 axes, or `first_run_only` is set on a shape with no frames |
| Splitting.SplitPlanFrames | niftifixer.py:59-73 | the plan opens with one save per frame (only frame 0 under `first_run_only`); frame `f` goes to its target name and holds that frame with the original affine and header |
| Splitting.SplitPlanTail | niftifixer.py:55-79 | after the frame saves the plan unlinks the original iff `delete_original` or `first_run_only`, then saves the `original_` copy iff `rename_original`; the length is exactly that, and no other path is unlinked |
| Splitting.FrameSavesLayout | niftifixer.py:59-73 | the loop saves `n` frames, frame `f` going to its target name |
| Splitting.RunLabelExamples | niftifixer.py:64-66 | frame labels are `_run-01`, `_run-03`, `_run-09` for frames 0, 2, 8, and `_run-010` for frame 9 |
| Splitting.RunLabelsDiverge | niftifixer.py:64-66 | the labels of two different frames, each followed by the marker, differ at some position |
| Splitting.OutNameIsPathIff | niftifixer.py:63-66 | a frame's output name equals the input path iff the chosen marker (`_T1w` or `.nii`) does not occur in the path |
| Splitting.OutNamesDistinct | niftifixer.py:63-66 | when the marker occurs in the path, different frames get different output names |
| Splitting.OutNameRewritesDirectory | niftifixer.py:63-64 | when a directory of the path also contains `_T1w`, the replacement rewrites it too, so the output does not start with that directory |
| Splitting.OutNameBeforeT1w | niftifixer.py:63-64 | with `_T1w` once in the path, in the name, the label goes right before it |
| Splitting.LabelBeforeSingleMarker | niftifixer.py:63-66 | a marker that occurs once, in the last component of the path, is found in the name, and the label is inserted right before it and nowhere else |
| Splitting.OutNameLabelsEvery | niftifixer.py:63-64 | `str.replace` labels every `_T1w` of the path: with `_T1w` once in a directory and once in the name, the output carries the run label before both |
| Splitting.LabelBeforeEachMarker | niftifixer.py:63-66 | a marker that occurs twice, the second time in the last component, is found in the name and gets the label right before each occurrence |
| Splitting.OutNameBeforeExtension | niftifixer.py:65-66 | with no `_T1w` in the name and `.nii` once in the path, the label goes right before `.nii` |
| Splitting.BidsT1wName | niftifixer.py:63-64 | `sub-<label>_T1w.nii[.gz]` under a directory without underscores becomes `sub-<label>_run-0<n>_T1w.nii[.gz]` |
| Splitting.PlainNiftiName | niftifixer.py:65-66 | a plain `<stem>.nii[.gz]` becomes `<stem>_run-0<n>.nii[.gz]` |
| Splitting.OriginalCopyNotPath | niftifixer.py:79 | the `original_` copy never lands on the input path |
| Splitting.FullSplitSaves | niftifixer.py:59-73 | when the path carries its marker (`_T1w` in the name, or `.nii`), the frame saves of a full split complete; each frame is found under its own name; every other path, the original included, is unchanged |
| Splitting.FrameFound | niftifixer.py:59-73 | when the path carries its marker, after the frame saves of a full split, frame `f` is found under its own output name, because no later frame is saved there |
| Splitting.FullSplitRun | niftifixer.py:59-79 | a full split whose frame saves keep the original path ends with exactly that map, minus the original iff it is deleted, plus the `original_` copy iff asked; it completes |
| Splitting.FullSplitOriginal | niftifixer.py:59-79 | when the path carries its marker, a full split completes; the original survives, unchanged, iff it is not deleted; the `original_` copy, when asked, holds the original image |
| Splitting.FullSplitFrameFound | niftifixer.py:59-79 | when the path carries its marker, after a full split every frame is found under its own name, unless the `original_` copy took that name |
| Splitting.FullSplitKeepsOthers | niftifixer.py:59-79 | when the path carries its marker, a full split leaves every path other than the original, the copy and the frames' output names as it was |
| Splitting.FullSplitNoMarker | niftifixer.py:59-79 | when the path carries neither marker, every frame is saved over the path itself: it completes, and the path survives iff not deleted, holding the last frame (or what it held, when there are no frames) |
| Splitting.FirstRunNameIff | niftifixer.py:71-72 | the name with `_run-01` removed equals the input path iff the path holds no `_run-01` |
| Splitting.FirstRunRun | niftifixer.py:59-79 | a `first_run_only` split saves frame 0 to the stripped name, removes the original path and then adds the `original_` copy when asked; it completes with exactly that map |
| Splitting.FirstRunOnlyRemovesOriginal | niftifixer.py:71-79 | a `first_run_only` split completes and never leaves the input path behind |
| Splitting.FirstRunOnlyLosesFrame | niftifixer.py:71-79 | without `_run-01` in the path, frame 0 is written over the original and deleted with it: the result is the old map minus the original, plus the `original_` copy when asked |
| Splitting.FirstRunOnlyKeepsFrame | niftifixer.py:71-79 | with `_run-01` in the path, frame 0 is found under the stripped name (unless the `original_` copy took that name) |
| Storage.ExecAppend | niftifixer.py:73-79 | running two plans one after the other is running their concatenation; a failed unlink stops the run |
| Storage.ExecSaves | niftifixer.py:73 | after a run of saves, a path holds the image of the last save to it, and a path no save names is unchanged |
| Storage.ExecSavesComplete | niftifixer.py:73 | a run of saves never stops |
| Storage.ExecSavesUntouched | niftifixer.py:73 | a run of saves none of which names `p` leaves `p` as it was, present or absent |
| Storage.ExecLastSave | niftifixer.py:73 | after a run of saves, a path holds the image of the last save to it |
| Storage.ExecThen | niftifixer.py:73-79 | a plan that completed at some map and is followed by more effects goes on from that map |
| Storage.ExecStopped | niftifixer.py:76-79 | once an unlink has found nothing, the effects after it do not run |
| Storage.ExecUnlinkThenSave | niftifixer.py:75-79 | an optional unlink of a present path followed by an optional save completes and leaves the expected map |
| Storage.FileSystem.Save | niftifixer.py:73 | `nib.save` creates or overwrites exactly that path, and running the one save on the old map completes with the new map |
| Storage.FileSystem.Unlink | niftifixer.py:76 | `unlink` removes the path, or reports `FileNotFoundError` and changes nothing when it is absent |
| PyStrings.EndsWithPrefixed | niftifixer.py:11-12 | a suffix of a file name is still a suffix of `root + '/' + file` |
| PyStrings.ContainsIffOccurs | niftifixer.py:63 | the `in` operator on strings holds iff the pattern occurs at some index |
| PyStrings.AbsentFirstChar | niftifixer.py:63 | a pattern whose first character is missing from a string does not occur in it |
| PyStrings.ContainsInSuffix | niftifixer.py:63 | a pattern that occurs in a suffix occurs in the whole string |
| PyStrings.ReplaceAbsent | niftifixer.py:64-72 | `str.replace` returns the string unchanged when the pattern is absent |
| PyStrings.ReplaceNotShorter | niftifixer.py:64-66 | replacing with something at least as long never shortens the string |
| PyStrings.ReplaceNotLonger | niftifixer.py:72 | replacing with something no longer never lengthens the string |
| PyStrings.ReplaceGrows | niftifixer.py:64-66 | with the pattern present and a longer replacement, the result is strictly longer |
| PyStrings.ReplaceShrinks | niftifixer.py:72 | with the pattern present and a shorter replacement, the result is strictly shorter |
| PyStrings.ReplaceDistinguishes | niftifixer.py:64-66 | with the pattern present, replacements that differ at some position give different results |
| PyStrings.ReplaceRewritesPrefix | niftifixer.py:64 | an occurrence inside the first `n` characters changes those characters when the replacement differs from the pattern |
| PyStrings.ReplaceSingle | niftifixer.py:64-66 | a single occurrence is replaced in place: `a + pat + b` becomes `a + rep + b` |
| PyStrings.ReplaceAfterMatch | niftifixer.py:64-66 | after the leftmost occurrence is replaced, replacement carries on over the rest of the string: `a + pat + b` becomes `a + rep` followed by `b` replaced in turn |
| PyStrings.ReplaceTwice | niftifixer.py:64-66 | two occurrences are both replaced, each in place: `a + pat + mid + pat + b` becomes `a + rep + mid + rep + b` |
| PyStrings.MarkerInName | niftifixer.py:63 | text without `/` that sits in the last component of a path is found in `Path(p).name` |
| PyStrings.Basename | niftifixer.py:79 | `Path(p).name` has no `/`, is a suffix of `p`, and is preceded by `/` when shorter than `p` |
| PyStrings.BasenameKeepsTail | niftifixer.py:63 | appending text without `/` appends it to the name |
| PyStrings.BasenameOfJoin | niftifixer.py:12 | the name of `root + '/' + file` is `file` |
| PyStrings.ContainsFromBasename | niftifixer.py:63-64 | what occurs in the name occurs in the whole path |
| PyStrings.NatToDecimal | niftifixer.py:64-66 | `str(n)` is non-empty, all digits, with no leading zero |
| PyStrings.DecimalRoundTrip | niftifixer.py:64-66 | `int(str(n)) == n` |
| PyStrings.DecimalInjective | niftifixer.py:64-66 | different numbers print differently |

## Left out

- The NIfTI format and nibabel's `load`, `save`, `get_zooms` and `Nifti1Image` are not modelled. An image is a record: its shape, its affine, a header passed through unchanged (its voxel sizes included), and voxels kept opaque. The frame slice records only the frame index.
- Voxel values from `get_fdata()` are not modelled, because they are floating-point arrays.
- Whether nibabel rewrites the header's dimensions when saving a 3-D slice is not modelled.
- `nib.load` failing on a file that is present but is not NIfTI is not modelled. `NiftiInfo.Open` only models the missing file.
- `os.walk` is not modelled: its traversal order, its directory names, and filesystem errors during the walk. The walk is an input sequence.
- Save failures are not modelled (unwritable paths, a missing directory, a full disk). Every save succeeds.
- `pathlib` normalisation is not modelled (trailing `/`, `.` components, Windows separators). The name is the text after the last `/`.
- `show_info` (niftifixer.py:24-26) only prints.
- The `__main__` command-line block (niftifixer.py:82-125) is interactive I/O: argparse, prompts, printing and `exit`.
- NiftiInfo.GetNiftiInfo.MakeT1w3D: the loaded image is held as a value, so the `original_` copy (niftifixer.py:79) always holds the image as loaded and a split that gets past the unlink ends in `None`. A nibabel image loaded from a file reads its voxels from that file again when it is saved. With `rename_original` and a deleted original (`delete_original` or `first_run_only`), the real copy reads a file that line 76 has just removed and most likely raises `FileNotFoundError`. When a frame save landed on the input path (`first_run_only` without `_run-01`, or a path with no marker), the real copy reads the overwritten file. nibabel's loading is not part of this model.
- Splitting.FullSplitOriginal: the copy holds the image as loaded, which nibabel's re-reading of the file can contradict, as the `MakeT1w3D` line above says.
- Splitting.FullSplitRun: the final map holds the copy as loaded, for the same reason.
- Splitting.FirstRunRun: the copy after the unlink is modelled as succeeding, for the same reason; nibabel would most likely raise `FileNotFoundError` there.
- Splitting.FirstRunOnlyLosesFrame: the copy is modelled as succeeding after the unlink, for the same reason.
- Splitting.FirstRunOnlyRemovesOriginal: with `rename_original` the split is modelled as completing after the unlink, where nibabel would most likely raise `FileNotFoundError` at niftifixer.py:79, as the `MakeT1w3D` line above says.
- Splitting.FullSplitNoMarker: with `delete_original` and `rename_original` the split is modelled as completing after the unlink, where nibabel would most likely raise `FileNotFoundError` at niftifixer.py:79, as the `MakeT1w3D` line above says.
- Splitting.FullSplitKeepsOthers: a file is identified by the text of its path. The key `original_<name>` stands for that file in the working directory, and other spellings of the same file (`./original_<name>` when the walk root is `.`, or an absolute path) are different keys, so the lemma calls such a spelling untouched although niftifixer.py:79 overwrites that file.
