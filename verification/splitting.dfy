/** What `make_t1w_3D` does to the filesystem, as a plan of effects: the output
    name of each frame, the frame images, and the saves and unlink it issues. */
module Splitting {
  import opened PyStrings
  import opened Storage

  // ---------------------------------------------------------------------------
  // Output names
  // ---------------------------------------------------------------------------

  /** `f'_run-0{frame + 1}'`: a literal "0" then the 1-based run number, so
      frame 9 is labelled `_run-010`. */
  function RunLabel(frame: nat): string {
    "_run-0" + NatToDecimal(frame + 1)
  }

  /** The output name of a frame: when the name of the path contains `_T1w`,
      every `_T1w` of the WHOLE path gets the run label in front of it;
      otherwise every `.nii` of the whole path does. */
  function OutName(path: string, frame: nat): string {
    if Contains(Basename(path), "_T1w") then Replace(path, "_T1w", RunLabel(frame) + "_T1w")
    else Replace(path, ".nii", RunLabel(frame) + ".nii")
  }

  /** The name a `first_run_only` split saves to: the input path with every
      `_run-01` removed. */
  function FirstRunName(path: string): string {
    Replace(path, "_run-01", "")
  }

  /** Where frame `frame` is saved. */
  function FrameTarget(path: string, frame: nat, firstRunOnly: bool): string {
    if firstRunOnly then FirstRunName(path) else OutName(path, frame)
  }

  /** `"original_" + pathlib.Path(path).name`: a bare name, with no directory. */
  function OriginalCopyName(path: string): string {
    "original_" + Basename(path)
  }

  // ---------------------------------------------------------------------------
  // Frame images
  // ---------------------------------------------------------------------------

  /** The shape of `data[:, :, :, f]`: axis 3 is dropped. */
  function SliceShape(shape: seq<nat>): (r: seq<nat>)
    requires |shape| >= 4
    ensures |r| == |shape| - 1
    ensures r[..3] == shape[..3]
    ensures forall k :: 3 <= k < |r| ==> r[k] == shape[k + 1]
  {
    shape[..3] + shape[4..]
  }

  /** `nib.Nifti1Image(data[:, :, :, frame], affine=..., header=...)`: the
      frame's voxels with the original affine and header. */
  function FrameImage(img: Image, frame: nat): Image
    requires |img.shape| >= 4
  {
    Image(SliceShape(img.shape), img.affine, img.header, FrameSlice(img.voxels, frame))
  }

  // ---------------------------------------------------------------------------
  // The plan
  // ---------------------------------------------------------------------------

  /** The saves of frames `0 .. n - 1`, in order. */
  function FrameSaves(img: Image, path: string, n: nat, firstRunOnly: bool): seq<Effect>
    requires |img.shape| >= 4
    decreases n
  {
    if n == 0 then []
    else
      FrameSaves(img, path, n - 1, firstRunOnly) +
      [Save(FrameTarget(path, n - 1, firstRunOnly), FrameImage(img, n - 1))]
  }

  /** Why `make_t1w_3D` raises: `IndexError` from `shape[3]` or from the frame
      slice, or `FileNotFoundError` from the unlink. */
  datatype SplitError = IndexError | FileNotFound(path: string)

  datatype Result<T> = Ok(value: T) | Err(error: SplitError)

  /** The number of frames the loop runs over. */
  function NumFrames(shape: seq<nat>, firstRunOnly: bool): nat
    requires |shape| >= 4
  {
    if firstRunOnly then 1 else shape[3]
  }

  /** The effects of `make_t1w_3D`, or the error raised before any of them:
      nothing for a single volume; otherwise one save per frame, the unlink of
      the original when it is to be deleted, and the `original_` copy. */
  function SplitPlan(img: Image, path: string, isSingleVolume: bool,
                     firstRunOnly: bool, deleteOriginal: bool, renameOriginal: bool): Result<seq<Effect>>
  {
    if isSingleVolume then Ok([])
    else if |img.shape| < 4 then Err(IndexError)
    else if NumFrames(img.shape, firstRunOnly) > img.shape[3] then Err(IndexError)
    else Ok(FrameSaves(img, path, NumFrames(img.shape, firstRunOnly), firstRunOnly) +
            (if deleteOriginal || firstRunOnly then [Unlink(path)] else []) +
            (if renameOriginal then [Save(OriginalCopyName(path), img)] else []))
  }

  // ---------------------------------------------------------------------------
  // Run labels and output names
  // ---------------------------------------------------------------------------

  /** The labels of the first runs, and the tenth, which is `_run-010`. */
  lemma RunLabelExamples()
    ensures RunLabel(0) == "_run-01"
    ensures RunLabel(2) == "_run-03"
    ensures RunLabel(8) == "_run-09"
    ensures RunLabel(9) == "_run-010"
  {
    assert NatToDecimal(10) == NatToDecimal(1) + [DigitChar(0)];
  }

  /** Two different frames' labels, each followed by a marker that does not
      start with a digit, differ at some index both reach; so neither is a
      prefix of the other. */
  lemma RunLabelsDiverge(f: nat, g: nat, m: string) returns (k: nat)
    requires f != g && |m| > 0 && !IsDigit(m[0])
    ensures k < |RunLabel(f) + m| && k < |RunLabel(g) + m|
    ensures (RunLabel(f) + m)[k] != (RunLabel(g) + m)[k]
  {
    var a, b := NatToDecimal(f + 1), NatToDecimal(g + 1);
    DecimalInjective(f + 1, g + 1);
    var x, y := RunLabel(f) + m, RunLabel(g) + m;
    assert x == "_run-0" + a + m && y == "_run-0" + b + m;
    if |a| == |b| {
      var i :| 0 <= i < |a| && a[i] != b[i];
      k := 6 + i;
      assert x[k] == a[i] && y[k] == b[i];
    } else if |a| < |b| {
      k := 6 + |a|;
      assert x[k] == m[0] && y[k] == b[|a|];
    } else {
      k := 6 + |b|;
      assert x[k] == a[|b|] && y[k] == m[0];
    }
  }

  /** The marker the output name is built around, and the replacement. */
  function Marker(path: string): string {
    if Contains(Basename(path), "_T1w") then "_T1w" else ".nii"
  }

  /** An output name inserts a label only when its marker is in the path; a
      path carrying neither `_T1w` in its name nor `.nii` anywhere is its own
      output name for every frame. */
  lemma OutNameIsPathIff(path: string, frame: nat)
    ensures OutName(path, frame) == path <==> !Contains(path, Marker(path))
  {
    var m := Marker(path);
    assert OutName(path, frame) == Replace(path, m, RunLabel(frame) + m);
    if Contains(path, m) {
      ReplaceGrows(path, m, RunLabel(frame) + m);
    } else {
      ReplaceAbsent(path, m, RunLabel(frame) + m);
    }
  }

  /** Different frames get different output names whenever the marker is in
      the path (it always is when the name contains `_T1w`). */
  lemma OutNamesDistinct(path: string, f: nat, g: nat)
    requires f != g
    requires Contains(Basename(path), "_T1w") || Contains(path, ".nii")
    ensures Contains(path, Marker(path))
    ensures OutName(path, f) != OutName(path, g)
  {
    var m := Marker(path);
    if Contains(Basename(path), "_T1w") {
      ContainsFromBasename(path, "_T1w");
    }
    var k := RunLabelsDiverge(f, g, m);
    ReplaceDistinguishes(path, m, RunLabel(f) + m, RunLabel(g) + m, k);
  }

  /** The replacement runs over the whole path, directories included: when
      a directory of the path also contains `_T1w`, the output name no longer
      starts with that directory: the output path names a different
      directory. */
  lemma OutNameRewritesDirectory(dir: string, name: string, frame: nat)
    requires '/' !in name
    requires Contains(dir, "_T1w") && Contains(name, "_T1w")
    ensures |OutName(dir + "/" + name, frame)| >= |dir|
    ensures OutName(dir + "/" + name, frame)[..|dir|] != dir
  {
    var path := dir + "/" + name;
    BasenameOfJoin(dir, name);
    assert path[..|dir|] == dir;
    ReplaceRewritesPrefix(path, |dir|, "_T1w", RunLabel(frame) + "_T1w", 1);
  }

  /** When `_T1w` occurs exactly once, in the name, the label goes right
      before it. */
  lemma OutNameBeforeT1w(a: string, b: string, frame: nat)
    requires '/' !in b
    requires !Contains(a + "_T1", "_T1w") && !Contains(b, "_T1w")
    ensures OutName(a + "_T1w" + b, frame) == a + RunLabel(frame) + "_T1w" + b
  {
    assert "_T1w"[..3] == "_T1";
    LabelBeforeSingleMarker(a, "_T1w", b, RunLabel(frame));
  }

  /** `str.replace` rewrites every `_T1w` of the path, not only the one in
      the name: with `_T1w` once in a directory (`a + "_T1w" + mid`, `mid`
      holding the `/`) and once in the name, both get the label. */
  lemma OutNameLabelsEvery(a: string, mid: string, b: string, frame: nat)
    requires '/' !in b
    requires !Contains(a + "_T1", "_T1w") && !Contains(mid + "_T1", "_T1w") && !Contains(b, "_T1w")
    ensures OutName(a + "_T1w" + mid + "_T1w" + b, frame) ==
      a + RunLabel(frame) + "_T1w" + mid + RunLabel(frame) + "_T1w" + b
  {
    assert "_T1w"[..3] == "_T1";
    LabelBeforeEachMarker(a, "_T1w", mid, b, RunLabel(frame));
  }

  /** A marker that occurs twice, the second time in the last component,
      gets the label inserted right before each occurrence. */
  lemma LabelBeforeEachMarker(a: string, m: string, mid: string, b: string, tag: string)
    requires |m| > 0 && '/' !in m && '/' !in b
    requires !Contains(a + m[..|m| - 1], m) && !Contains(mid + m[..|m| - 1], m) && !Contains(b, m)
    ensures Contains(Basename(a + m + mid + m + b), m)
    ensures Replace(a + m + mid + m + b, m, tag + m) == a + tag + m + mid + tag + m + b
  {
    var rep := tag + m;
    assert a + rep + mid + rep + b == a + tag + m + mid + tag + m + b;
    MarkerInName(a + m + mid, m, b);
    ReplaceTwice(a, mid, b, m, rep);
  }

  /** A marker that occurs once, in the last component, gets the label
      inserted right before it. */
  lemma LabelBeforeSingleMarker(a: string, m: string, b: string, tag: string)
    requires |m| > 0 && '/' !in m && '/' !in b
    requires !Contains(a + m[..|m| - 1], m) && !Contains(b, m)
    ensures Contains(Basename(a + m + b), m)
    ensures Replace(a + m + b, m, tag + m) == a + tag + m + b
  {
    assert a + (tag + m) + b == a + tag + m + b;
    MarkerInName(a, m, b);
    ReplaceSingle(a, m, b, tag + m);
  }

  /** Without `_T1w` in the name and with `.nii` exactly once, the label goes
      right before the `.nii`. */
  lemma OutNameBeforeExtension(a: string, b: string, frame: nat)
    requires !Contains(Basename(a + ".nii" + b), "_T1w")
    requires !Contains(a + ".ni", ".nii") && !Contains(b, ".nii")
    ensures OutName(a + ".nii" + b, frame) == a + RunLabel(frame) + ".nii" + b
  {
    assert ".nii"[..3] == ".ni";
    ReplaceSingle(a, ".nii", b, RunLabel(frame) + ".nii");
  }

  /** A BIDS T1w file name `sub-<label>_T1w.nii[.gz]` under a directory
      path without underscores gets the run label right before `_T1w`. */
  lemma BidsT1wName(dir: string, subject: string, ext: string, frame: nat)
    requires ext == ".nii" || ext == ".nii.gz"
    requires '_' !in dir && '_' !in subject && '/' !in subject
    ensures OutName(dir + "sub-" + subject + "_T1w" + ext, frame) ==
      dir + "sub-" + subject + RunLabel(frame) + "_T1w" + ext
  {
    var a := dir + "sub-" + subject;
    assert forall i :: 0 <= i < |a| ==> a[i] != '_';
    AbsentFirstChar(a + "_T1", "_T1w");
    AbsentFirstChar(ext, "_T1w");
    OutNameBeforeT1w(a, ext, frame);
  }

  /** A name with no underscore and no other dot, followed by `.nii` or
      `.nii.gz`, gets the run label right before `.nii`. */
  lemma PlainNiftiName(stem: string, ext: string, frame: nat)
    requires ext == "" || ext == ".gz"
    requires '_' !in stem && '.' !in stem
    ensures OutName(stem + ".nii" + ext, frame) == stem + RunLabel(frame) + ".nii" + ext
  {
    var path := stem + ".nii" + ext;
    assert forall i :: 0 <= i < |path| ==> path[i] != '_';
    var name := Basename(path);
    assert forall i :: 0 <= i < |name| ==> name[i] == path[|path| - |name| + i];
    AbsentFirstChar(name, "_T1w");
    assert forall i :: 0 <= i < |stem| ==> stem[i] != '.';
    AbsentFirstChar(stem + ".ni", ".nii");
    OutNameBeforeExtension(stem, ext, frame);
  }

  // ---------------------------------------------------------------------------
  // The shape of the plan
  // ---------------------------------------------------------------------------

  /** The frame saves: `n` of them, frame `f` saved at `f`'s target. */
  lemma {:induction false} FrameSavesLayout(img: Image, path: string, n: nat, firstRunOnly: bool)
    requires |img.shape| >= 4
    ensures |FrameSaves(img, path, n, firstRunOnly)| == n
    ensures OnlySaves(FrameSaves(img, path, n, firstRunOnly))
    ensures forall f :: 0 <= f < n ==>
      FrameSaves(img, path, n, firstRunOnly)[f] ==
        Save(FrameTarget(path, f, firstRunOnly), FrameImage(img, f))
    decreases n
  {
    if n > 0 {
      FrameSavesLayout(img, path, n - 1, firstRunOnly);
    }
  }

  /** The plan fails exactly when `shape[3]` does not exist, or when
      `first_run_only` asks for frame 0 of a shape with no frames; a single
      volume plans nothing. */
  lemma SplitPlanErrors(img: Image, path: string, isSingleVolume: bool,
                        firstRunOnly: bool, deleteOriginal: bool, renameOriginal: bool)
    ensures SplitPlan(img, path, isSingleVolume, firstRunOnly, deleteOriginal, renameOriginal).Err? <==>
      !isSingleVolume && (|img.shape| < 4 || (firstRunOnly && img.shape[3] == 0))
    ensures isSingleVolume ==>
      SplitPlan(img, path, isSingleVolume, firstRunOnly, deleteOriginal, renameOriginal) == Ok([])
  {
  }

  /** A split plans, first, one save per frame (only frame 0 under
      `first_run_only`), each holding that frame under the frame's target
      with the original affine and header. */
  lemma SplitPlanFrames(img: Image, path: string,
                        firstRunOnly: bool, deleteOriginal: bool, renameOriginal: bool, f: nat)
    requires |img.shape| >= 4 && (firstRunOnly ==> img.shape[3] > 0)
    requires f < NumFrames(img.shape, firstRunOnly)
    ensures var plan := SplitPlan(img, path, false, firstRunOnly, deleteOriginal, renameOriginal);
      plan.Ok? && f < |plan.value| &&
      plan.value[f] == Save(FrameTarget(path, f, firstRunOnly), FrameImage(img, f)) &&
      plan.value[f].image.affine == img.affine && plan.value[f].image.header == img.header
  {
    var n := NumFrames(img.shape, firstRunOnly);
    var saves := FrameSaves(img, path, n, firstRunOnly);
    var unlinks: seq<Effect> := if deleteOriginal || firstRunOnly then [Unlink(path)] else [];
    var copies: seq<Effect> := if renameOriginal then [Save(OriginalCopyName(path), img)] else [];
    FrameSavesLayout(img, path, n, firstRunOnly);
    assert (saves + unlinks + copies)[f] == saves[f];
    assert SplitPlan(img, path, false, firstRunOnly, deleteOriginal, renameOriginal) == Ok(saves + unlinks + copies);
  }

  /** After the frame saves a split plans the unlink of the original path,
      exactly when it is to be deleted, and then the `original_` copy,
      exactly when asked; it unlinks no other path. */
  lemma SplitPlanTail(img: Image, path: string,
                      firstRunOnly: bool, deleteOriginal: bool, renameOriginal: bool)
    requires |img.shape| >= 4 && (firstRunOnly ==> img.shape[3] > 0)
    ensures var plan := SplitPlan(img, path, false, firstRunOnly, deleteOriginal, renameOriginal);
      var n := NumFrames(img.shape, firstRunOnly);
      var u := if deleteOriginal || firstRunOnly then 1 else 0;
      plan.Ok? &&
      |plan.value| == n + u + (if renameOriginal then 1 else 0) &&
      (forall i :: 0 <= i < |plan.value| && plan.value[i].Unlink? ==> i == n && plan.value[i].path == path) &&
      (u == 1 ==> plan.value[n] == Unlink(path)) &&
      (renameOriginal ==> plan.value[|plan.value| - 1] == Save(OriginalCopyName(path), img))
  {
    var n := NumFrames(img.shape, firstRunOnly);
    var saves := FrameSaves(img, path, n, firstRunOnly);
    var unlinks: seq<Effect> := if deleteOriginal || firstRunOnly then [Unlink(path)] else [];
    var copies: seq<Effect> := if renameOriginal then [Save(OriginalCopyName(path), img)] else [];
    PlanIndices(saves, unlinks, copies);
    FrameSavesLayout(img, path, n, firstRunOnly);
    assert SplitPlan(img, path, false, firstRunOnly, deleteOriginal, renameOriginal) == Ok(saves + unlinks + copies);
  }

  /** Where the parts of `a + b + c` sit. */
  lemma PlanIndices(a: seq<Effect>, b: seq<Effect>, c: seq<Effect>)
    ensures forall i :: 0 <= i < |a| ==> (a + b + c)[i] == a[i]
    ensures forall i :: |a| <= i < |a| + |b| ==> (a + b + c)[i] == b[i - |a|]
    ensures forall i :: |a| + |b| <= i < |a| + |b| + |c| ==> (a + b + c)[i] == c[i - |a| - |b|]
  {
  }

  // ---------------------------------------------------------------------------
  // What a split leaves on the filesystem
  // ---------------------------------------------------------------------------

  /** The `original_` copy never lands on the original path. */
  lemma OriginalCopyNotPath(path: string)
    ensures OriginalCopyName(path) != path
  {
  }

  /** The frame saves of a full split of a file whose marker is in its path:
      they complete, each frame is found under its own output name, and every
      other path, the original included, keeps what it held. */
  lemma FullSplitSaves(files: map<string, Image>, img: Image, path: string)
    requires |img.shape| >= 4
    requires Contains(Basename(path), "_T1w") || Contains(path, ".nii")
    ensures var mid := Exec(files, FrameSaves(img, path, img.shape[3], false));
      mid.missing == None &&
      (forall f :: 0 <= f < img.shape[3] ==>
         OutName(path, f) in mid.files && mid.files[OutName(path, f)] == FrameImage(img, f)) &&
      (forall p :: (forall f :: 0 <= f < img.shape[3] ==> p != OutName(path, f)) ==>
         (p in mid.files <==> p in files) && (p in files ==> mid.files[p] == files[p])) &&
      (forall f :: 0 <= f < img.shape[3] ==> OutName(path, f) != path)
  {
    var n := img.shape[3];
    var saves := FrameSaves(img, path, n, false);
    FrameSavesLayout(img, path, n, false);
    ExecSavesComplete(files, saves);
    if Contains(Basename(path), "_T1w") {
      ContainsFromBasename(path, "_T1w");
    }
    forall f | 0 <= f < n ensures OutName(path, f) != path {
      OutNameIsPathIff(path, f);
    }
    forall f | 0 <= f < n
      ensures OutName(path, f) in Exec(files, saves).files
      ensures Exec(files, saves).files[OutName(path, f)] == FrameImage(img, f)
    {
      FrameFound(files, img, path, f);
    }
    forall p | forall f :: 0 <= f < n ==> p != OutName(path, f)
      ensures (p in Exec(files, saves).files <==> p in files)
      ensures p in files ==> Exec(files, saves).files[p] == files[p]
    {
      forall i | 0 <= i < n ensures saves[i].path != p {
        assert saves[i].path == OutName(path, i);
      }
      ExecSavesUntouched(files, saves, p);
    }
  }

  /** Frame `f` of a full split is found under its output name once the
      frame saves have run: no later frame is saved under the same name. */
  lemma FrameFound(files: map<string, Image>, img: Image, path: string, f: nat)
    requires |img.shape| >= 4 && f < img.shape[3]
    requires Contains(Basename(path), "_T1w") || Contains(path, ".nii")
    ensures var mid := Exec(files, FrameSaves(img, path, img.shape[3], false)).files;
      OutName(path, f) in mid && mid[OutName(path, f)] == FrameImage(img, f)
  {
    var n := img.shape[3];
    var saves := FrameSaves(img, path, n, false);
    var name := OutName(path, f);
    FrameSavesLayout(img, path, n, false);
    forall j | f < j < n ensures saves[j].path != name {
      OutNamesDistinct(path, j, f);
    }
    assert LastSaveTo(saves, name, f);
    ExecLastSave(files, saves, name, f);
  }


  /** The effects of a split without `first_run_only`. */
  function FullSplit(img: Image, path: string, deleteOriginal: bool, renameOriginal: bool): (plan: seq<Effect>)
    requires |img.shape| >= 4
    ensures SplitPlan(img, path, false, false, deleteOriginal, renameOriginal) == Ok(plan)
  {
    SplitPlan(img, path, false, false, deleteOriginal, renameOriginal).value
  }

  /** A full split (not `first_run_only`) of a file whose marker is in its
      path completes; the original survives exactly when it is not deleted,
      holding what it held, and the `original_` copy, when asked, holds the
      original image. */
  lemma FullSplitOriginal(files: map<string, Image>, img: Image, path: string,
                          deleteOriginal: bool, renameOriginal: bool)
    requires |img.shape| >= 4 && path in files
    requires Contains(Basename(path), "_T1w") || Contains(path, ".nii")
    ensures Exec(files, FullSplit(img, path, deleteOriginal, renameOriginal)).missing == None
    ensures var o := Exec(files, FullSplit(img, path, deleteOriginal, renameOriginal)).files;
      (path in o <==> !deleteOriginal) && (!deleteOriginal ==> o[path] == files[path])
    ensures var o := Exec(files, FullSplit(img, path, deleteOriginal, renameOriginal)).files;
      renameOriginal ==> OriginalCopyName(path) in o && o[OriginalCopyName(path)] == img
  {
    FullSplitSaves(files, img, path);
    var mid := Exec(files, FrameSaves(img, path, img.shape[3], false)).files;
    assert path in mid && mid[path] == files[path];
    FullSplitRun(files, img, path, deleteOriginal, renameOriginal);
    OriginalCopyNotPath(path);
  }

  /** After a full split, frame `f` is found under its own output name, unless
      the `original_` copy took that name. */
  lemma FullSplitFrameFound(files: map<string, Image>, img: Image, path: string,
                            deleteOriginal: bool, renameOriginal: bool, f: nat)
    requires |img.shape| >= 4 && path in files
    requires Contains(Basename(path), "_T1w") || Contains(path, ".nii")
    requires f < img.shape[3] && !(renameOriginal && OutName(path, f) == OriginalCopyName(path))
    ensures var o := Exec(files, FullSplit(img, path, deleteOriginal, renameOriginal)).files;
      OutName(path, f) in o && o[OutName(path, f)] == FrameImage(img, f)
  {
    FullSplitSaves(files, img, path);
    var mid := Exec(files, FrameSaves(img, path, img.shape[3], false)).files;
    assert path in mid;
    FullSplitRun(files, img, path, deleteOriginal, renameOriginal);
    KeptThroughFinish(mid, path, OriginalCopyName(path), img, deleteOriginal, renameOriginal, OutName(path, f));
  }

  /** A full split leaves every path other than the original, the copy and
      the frames' output names as it was. */
  lemma FullSplitKeepsOthers(files: map<string, Image>, img: Image, path: string,
                             deleteOriginal: bool, renameOriginal: bool, p: string)
    requires |img.shape| >= 4 && path in files
    requires Contains(Basename(path), "_T1w") || Contains(path, ".nii")
    requires p in files && p != path && p != OriginalCopyName(path)
    requires forall f :: 0 <= f < img.shape[3] ==> p != OutName(path, f)
    ensures var o := Exec(files, FullSplit(img, path, deleteOriginal, renameOriginal)).files;
      p in o && o[p] == files[p]
  {
    FullSplitSaves(files, img, path);
    var mid := Exec(files, FrameSaves(img, path, img.shape[3], false)).files;
    assert path in mid && p in mid && mid[p] == files[p];
    FullSplitRun(files, img, path, deleteOriginal, renameOriginal);
    KeptThroughFinish(mid, path, OriginalCopyName(path), img, deleteOriginal, renameOriginal, p);
  }

  /** A full split of a file whose marker is not in its path (neither `_T1w`
      in its name nor `.nii` anywhere) saves every frame over the original
      itself: the path ends holding the last frame, or what it held when there
      are no frames, unless the original is deleted. */
  lemma FullSplitNoMarker(files: map<string, Image>, img: Image, path: string,
                          deleteOriginal: bool, renameOriginal: bool)
    requires |img.shape| >= 4 && path in files
    requires !Contains(Basename(path), "_T1w") && !Contains(path, ".nii")
    ensures Exec(files, FullSplit(img, path, deleteOriginal, renameOriginal)).missing == None
    ensures var o := Exec(files, FullSplit(img, path, deleteOriginal, renameOriginal)).files;
      (path in o <==> !deleteOriginal) &&
      (!deleteOriginal ==>
         o[path] == if img.shape[3] == 0 then files[path] else FrameImage(img, img.shape[3] - 1))
  {
    var n := img.shape[3];
    var saves := FrameSaves(img, path, n, false);
    FrameSavesLayout(img, path, n, false);
    ExecSavesComplete(files, saves);
    var mid := Exec(files, saves).files;
    if n == 0 {
      assert saves == [];
      assert mid == files;
    } else {
      forall j | 0 <= j < n ensures saves[j].path == path {
        OutNameIsPathIff(path, j);
      }
      assert LastSaveTo(saves, path, n - 1);
      ExecLastSave(files, saves, path, n - 1);
    }
    assert path in mid;
    FullSplitRun(files, img, path, deleteOriginal, renameOriginal);
    OriginalCopyNotPath(path);
  }

  /** What the unlink and the copy leave of the map the frame saves produced:
      any other name keeps its image. */
  lemma KeptThroughFinish(mid: map<string, Image>, path: string, q: string, img: Image,
                          deleteOriginal: bool, renameOriginal: bool, name: string)
    requires name in mid && name != path && !(renameOriginal && name == q)
    ensures var after := if deleteOriginal then mid - {path} else mid;
      var o := if renameOriginal then after[q := img] else after;
      name in o && o[name] == mid[name]
  {
  }


  /** A full split runs its frame saves, then the unlink and the copy. */
  lemma FullSplitRun(files: map<string, Image>, img: Image, path: string,
                     deleteOriginal: bool, renameOriginal: bool)
    requires |img.shape| >= 4
    requires Exec(files, FrameSaves(img, path, img.shape[3], false)).missing == None
    requires path in Exec(files, FrameSaves(img, path, img.shape[3], false)).files
    ensures var mid := Exec(files, FrameSaves(img, path, img.shape[3], false)).files;
      var after := if deleteOriginal then mid - {path} else mid;
      Exec(files, FullSplit(img, path, deleteOriginal, renameOriginal)) ==
        Outcome(if renameOriginal then after[OriginalCopyName(path) := img] else after, None)
  {
    var saves := FrameSaves(img, path, img.shape[3], false);
    var unlink: seq<Effect> := if deleteOriginal then [Unlink(path)] else [];
    var copy: seq<Effect> := if renameOriginal then [Save(OriginalCopyName(path), img)] else [];
    assert FullSplit(img, path, deleteOriginal, renameOriginal) == saves + (unlink + copy);
    ExecAppend(files, saves, unlink + copy);
    ExecUnlinkThenSave(Exec(files, saves).files, path, deleteOriginal, OriginalCopyName(path), img, renameOriginal);
  }


  /** A `first_run_only` split completes and never leaves the input path
      behind. */
  lemma FirstRunOnlyRemovesOriginal(files: map<string, Image>, img: Image, path: string,
                                    deleteOriginal: bool, renameOriginal: bool)
    requires |img.shape| >= 4 && img.shape[3] > 0 && path in files
    ensures SplitPlan(img, path, false, true, deleteOriginal, renameOriginal).Ok?
    ensures var o := Exec(files, SplitPlan(img, path, false, true, deleteOriginal, renameOriginal).value);
      o.missing == None && path !in o.files
  {
    FirstRunRun(files, img, path, deleteOriginal, renameOriginal);
    OriginalCopyNotPath(path);
  }

  /** When the path holds no `_run-01`, frame 0 is saved over the original
      and then deleted with it: the split only removes the original and adds
      the `original_` copy, if asked for. */
  lemma FirstRunOnlyLosesFrame(files: map<string, Image>, img: Image, path: string,
                               deleteOriginal: bool, renameOriginal: bool)
    requires |img.shape| >= 4 && img.shape[3] > 0 && path in files
    requires !Contains(path, "_run-01")
    ensures SplitPlan(img, path, false, true, deleteOriginal, renameOriginal).Ok?
    ensures Exec(files, SplitPlan(img, path, false, true, deleteOriginal, renameOriginal).value).files ==
      if renameOriginal then (files - {path})[OriginalCopyName(path) := img] else files - {path}
  {
    FirstRunNameIff(path);
    FirstRunRun(files, img, path, deleteOriginal, renameOriginal);
    OverwriteThenRemove(files, path, FrameImage(img, 0));
  }

  /** When the path holds `_run-01`, frame 0 is found under the stripped
      name (unless the `original_` copy took that name). */
  lemma FirstRunOnlyKeepsFrame(files: map<string, Image>, img: Image, path: string,
                               deleteOriginal: bool, renameOriginal: bool)
    requires |img.shape| >= 4 && img.shape[3] > 0 && path in files
    requires Contains(path, "_run-01")
    requires !(renameOriginal && FirstRunName(path) == OriginalCopyName(path))
    ensures SplitPlan(img, path, false, true, deleteOriginal, renameOriginal).Ok?
    ensures var o := Exec(files, SplitPlan(img, path, false, true, deleteOriginal, renameOriginal).value).files;
      FirstRunName(path) in o && o[FirstRunName(path)] == FrameImage(img, 0)
  {
    var target := FirstRunName(path);
    FirstRunNameIff(path);
    FirstRunRun(files, img, path, deleteOriginal, renameOriginal);
    KeptThroughFinish(files[target := FrameImage(img, 0)], path, OriginalCopyName(path), img,
                      true, renameOriginal, target);
  }


  /** Saving to a path and then removing it leaves what removing it alone
      leaves. */
  lemma OverwriteThenRemove(files: map<string, Image>, path: string, img: Image)
    ensures files[path := img] - {path} == files - {path}
  {
  }

  /** The stripped name is the input path exactly when it holds no `_run-01`. */
  lemma FirstRunNameIff(path: string)
    ensures FirstRunName(path) == path <==> !Contains(path, "_run-01")
  {
    if Contains(path, "_run-01") {
      ReplaceShrinks(path, "_run-01", "");
    } else {
      ReplaceAbsent(path, "_run-01", "");
    }
  }


  /** A `first_run_only` split saves frame 0 to the stripped name, unlinks
      the original path and saves the copy when asked. */
  lemma FirstRunRun(files: map<string, Image>, img: Image, path: string,
                    deleteOriginal: bool, renameOriginal: bool)
    requires |img.shape| >= 4 && img.shape[3] > 0 && path in files
    ensures SplitPlan(img, path, false, true, deleteOriginal, renameOriginal).Ok?
    ensures var after := files[FirstRunName(path) := FrameImage(img, 0)] - {path};
      Exec(files, SplitPlan(img, path, false, true, deleteOriginal, renameOriginal).value) ==
        Outcome(if renameOriginal then after[OriginalCopyName(path) := img] else after, None)
  {
    var q := OriginalCopyName(path);
    var saves := FrameSaves(img, path, 1, true);
    var rest: seq<Effect> := [Unlink(path)] + (if renameOriginal then [Save(q, img)] else []);
    assert saves == [Save(FirstRunName(path), FrameImage(img, 0))];
    assert SplitPlan(img, path, false, true, deleteOriginal, renameOriginal).value == saves + rest;
    ExecAppend(files, saves, rest);
    var mid := files[FirstRunName(path) := FrameImage(img, 0)];
    assert Exec(files, saves) == Outcome(mid, None);
    ExecUnlinkThenSave(mid, path, true, q, img, renameOriginal);
  }

}
