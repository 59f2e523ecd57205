/** `GetNiftiInfo`: one loaded image, its shape classification, and the split
    of a multi-volume image into one file per frame. */
module NiftiInfo {
  import opened PyStrings
  import opened Storage
  import opened Classify
  import opened Splitting
  import opened Locator

  class GetNiftiInfo {
    var niftiPath: string
    var nifti: Image
    var shape: seq<nat>
    var zooms: seq<real>
    var isSingleVolume: bool
    var is3D: bool

    /** What construction establishes and no method breaks: the cached shape
        and voxel sizes are the image's, and the flags are those of the shape. */
    ghost predicate Valid()
      reads this
    {
      shape == nifti.shape && zooms == nifti.header.zooms &&
      Flags(isSingleVolume, is3D) == FlagsAfterInit(shape)
    }

    /** `__init__`, with the image `nib.load(nifti_path)` returned passed in:
        cache the shape and voxel sizes, then set `is_single_volume` from
        `check_if_single_volume` and `is_3D` from `check_dims_for_anat`,
        which may overwrite `is_single_volume`. */
    constructor (niftiPath: string, loaded: Image)
      ensures this.niftiPath == niftiPath && nifti == loaded
      ensures shape == loaded.shape && zooms == loaded.header.zooms
      ensures is3D <==> |shape| == 3
      ensures isSingleVolume <==> |shape| == 3 || (|shape| == 4 && shape[3] == 1)
      ensures Valid()
    {
      this.niftiPath := niftiPath;
      nifti := loaded;
      shape := loaded.shape;
      zooms := loaded.header.zooms;
      new;
      isSingleVolume := CheckIfSingleVolume(shape);
      is3D := CheckDimsForAnat();
      InitTruthTable(shape);
    }

    /** `check_dims_for_anat`: sets `is_3D`, overwrites `is_single_volume`
        for a four-dimensional shape only, and returns what it stored in
        `is_3D`. */
    method CheckDimsForAnat() returns (r: bool)
      modifies this`is3D, this`isSingleVolume
      ensures Flags(isSingleVolume, is3D) == DimsForAnat(shape, old(isSingleVolume))
      ensures r == is3D && (r <==> |shape| == 3)
      ensures |shape| != 4 ==> isSingleVolume == old(isSingleVolume)
      ensures old(Valid()) ==> Valid()
    {
      if |shape| == 3 {
        is3D := true;
        return true;
      } else if |shape| == 4 {
        is3D := false;
        if shape[3] == 1 {
          isSingleVolume := true;
        } else {
          isSingleVolume := false;
        }
        return false;
      } else {
        is3D := false;
        return false;
      }
    }

    /** `make_t1w_3D`. A single volume is returned as it is and the
        filesystem is left alone. Otherwise each frame is saved under its
        output name (under `first_run_only` only frame 0, saved to the path
        with `_run-01` removed); then the original is unlinked when
        `delete_original` or `first_run_only` is set, and a copy of it is
        saved as `original_<name>` when `rename_original` is set; the result
        is then `None`. An `IndexError` is raised before anything is written,
        a `FileNotFoundError` after the frames are saved. */
    method MakeT1w3D(fs: FileSystem, firstRunOnly: bool, deleteOriginal: bool, renameOriginal: bool)
      returns (r: Result<Option<Image>>)
      requires Valid()
      modifies fs
      ensures isSingleVolume ==> r == Ok(Some(nifti)) && fs.files == old(fs.files)
      ensures match SplitPlan(nifti, niftiPath, isSingleVolume, firstRunOnly, deleteOriginal, renameOriginal)
        case Err(e) => r == Err(e) && fs.files == old(fs.files)
        case Ok(plan) =>
          var o := Exec(old(fs.files), plan);
          fs.files == o.files &&
          r == (if o.missing.Some? then Err(FileNotFound(o.missing.value))
                else if isSingleVolume then Ok(Some(nifti)) else Ok(None))
    {
      if isSingleVolume {
        return Ok(Some(nifti));
      }
      if |shape| < 4 {
        return Err(IndexError);
      }
      var numFrames := shape[3];
      if firstRunOnly {
        numFrames := 1;
      }
      FrameSavesLayout(nifti, niftiPath, numFrames, firstRunOnly);
      for frame := 0 to numFrames
        invariant Exec(old(fs.files), FrameSaves(nifti, niftiPath, frame, firstRunOnly)) == Outcome(fs.files, None)
        invariant frame > 0 ==> numFrames <= shape[3]
      {
        var outName;
        if Contains(Basename(niftiPath), "_T1w") {
          outName := Replace(niftiPath, "_T1w", "_run-0" + NatToDecimal(frame + 1) + "_T1w");
        } else {
          outName := Replace(niftiPath, ".nii", "_run-0" + NatToDecimal(frame + 1) + ".nii");
        }
        if frame >= shape[3] {
          // data[:, :, :, frame] is out of range: only frame 0 of a shape
          // with no frames, under first_run_only, gets here
          return Err(IndexError);
        }
        var newRun := FrameImage(nifti, frame);
        if firstRunOnly {
          outName := Replace(niftiPath, "_run-01", "");
        }
        assert outName == FrameTarget(niftiPath, frame, firstRunOnly);
        ghost var done := FrameSaves(nifti, niftiPath, frame, firstRunOnly);
        assert FrameSaves(nifti, niftiPath, frame + 1, firstRunOnly) == done + [Save(outName, newRun)];
        ExecThen(old(fs.files), done, [Save(outName, newRun)], fs.files);
        fs.Save(outName, newRun);
      }
      ghost var saves := FrameSaves(nifti, niftiPath, numFrames, firstRunOnly);
      ghost var saved := fs.files;
      assert Exec(old(fs.files), saves) == Outcome(saved, None);
      var unlinkPlan: seq<Effect> := if deleteOriginal || firstRunOnly then [Unlink(niftiPath)] else [];
      var copyPlan: seq<Effect> := if renameOriginal then [Save(OriginalCopyName(niftiPath), nifti)] else [];
      ghost var plan := saves + unlinkPlan + copyPlan;
      assert SplitPlan(nifti, niftiPath, isSingleVolume, firstRunOnly, deleteOriginal, renameOriginal) == Ok(plan);
      ExecThen(old(fs.files), saves, unlinkPlan, saved);
      if deleteOriginal || firstRunOnly {
        var ok := fs.Unlink(niftiPath);
        if !ok {
          ExecStopped(old(fs.files), saves + unlinkPlan, copyPlan);
          return Err(FileNotFound(niftiPath));
        }
      }
      ghost var kept := fs.files;
      assert Exec(saved, unlinkPlan) == Outcome(kept, None);
      ExecThen(old(fs.files), saves + unlinkPlan, copyPlan, kept);
      if renameOriginal {
        fs.Save("original_" + Basename(niftiPath), nifti);
      }
      assert Exec(old(fs.files), plan) == Exec(kept, copyPlan) == Outcome(fs.files, None);
      return Ok(None);
    }
  }

  /** `GetNiftiInfo(path)` on the filesystem: `None` when nothing is stored at
      the path (the load error `nib.load` raises). */
  method Open(fs: FileSystem, path: string) returns (info: Option<GetNiftiInfo>)
    ensures info.Some? <==> path in fs.files
    ensures info.Some? ==>
      fresh(info.value) && info.value.niftiPath == path &&
      info.value.nifti == fs.files[path] && info.value.Valid()
  {
    if path in fs.files {
      var loaded := new GetNiftiInfo(path, fs.files[path]);
      info := Some(loaded);
    } else {
      info := None;
    }
  }

  /** A path the locator records takes the `_T1w` branch of the naming: each
      frame of it gets its own output name, and none is the path itself. */
  lemma LocatedPathNames(root: string, file: string, f: nat, g: nat)
    requires '/' !in file && IsT1wFile(file)
    ensures Marker(JoinPath(root, file)) == "_T1w"
    ensures OutName(JoinPath(root, file), f) != JoinPath(root, file)
    ensures f != g ==> OutName(JoinPath(root, file), f) != OutName(JoinPath(root, file), g)
  {
    var path := JoinPath(root, file);
    BasenameOfJoin(root, file);
    var k := if EndsWith(file, "_T1w.nii.gz") then |file| - 11 else |file| - 8;
    assert file[k..][..4] == "_T1w";
    ContainsInSuffix(file, k, "_T1w");
    OutNameIsPathIff(path, f);
    ContainsFromBasename(path, "_T1w");
    if f != g {
      OutNamesDistinct(path, f, g);
    }
  }
}
