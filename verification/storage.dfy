/** Images and the filesystem that holds them, as far as the script sees them
    through nibabel's `load`/`save` and `pathlib.Path.unlink`. */
module Storage {

  /** The voxel array of an image, kept opaque: all the model tracks is where a
      block of voxels came from. `FrameSlice(v, f)` is `v[:, :, :, f]`. */
  datatype Voxels = Stored(id: nat) | FrameSlice(whole: Voxels, frame: nat)

  /** The image header, passed through untouched; only its voxel sizes
      (`header.get_zooms()`) are read by the script. */
  datatype Header = Header(zooms: seq<real>, raw: seq<bv8>)

  /** A loaded NIfTI image: the shape of its voxel array, its affine, its
      header and its voxels. */
  datatype Image = Image(shape: seq<nat>, affine: seq<seq<real>>, header: Header, voxels: Voxels)

  /** One effect on the filesystem: `nib.save(image, path)` or
      `pathlib.Path(path).unlink()`. */
  datatype Effect = Save(path: string, image: Image) | Unlink(path: string)

  datatype Option<T> = None | Some(value: T)

  /** The files after running some effects, and the path of an unlink that
      found nothing there, if one did (`FileNotFoundError`), at which point
      the run stopped. */
  datatype Outcome = Outcome(files: map<string, Image>, missing: Option<string>)

  /** Runs effects in order. A save creates or overwrites its path; an unlink
      removes its path, or stops the run when the path is absent. */
  function Exec(files: map<string, Image>, effects: seq<Effect>): Outcome
    decreases |effects|
  {
    if effects == [] then Outcome(files, None)
    else match effects[0]
      case Save(p, img) => Exec(files[p := img], effects[1..])
      case Unlink(p) =>
        if p in files then Exec(files - {p}, effects[1..]) else Outcome(files, Some(p))
  }

  /** Running `a + b` is running `a` and then, unless `a` stopped, `b`. */
  lemma {:induction false} ExecAppend(files: map<string, Image>, a: seq<Effect>, b: seq<Effect>)
    ensures Exec(files, a + b) ==
      (var o := Exec(files, a); if o.missing.None? then Exec(o.files, b) else o)
    decreases |a|
  {
    if a != [] {
      assert (a + b)[0] == a[0];
      assert (a + b)[1..] == a[1..] + b;
      match a[0]
      case Save(p, img) => ExecAppend(files[p := img], a[1..], b);
      case Unlink(p) =>
        if p in files {
          ExecAppend(files - {p}, a[1..], b);
        } else {
          assert Exec(files, a + b) == Outcome(files, Some(p));
        }
    } else {
      assert a + b == b;
    }
  }

  /** A run that completed at `mid` and is followed by `b` goes on from `mid`. */
  lemma ExecThen(files: map<string, Image>, a: seq<Effect>, b: seq<Effect>, mid: map<string, Image>)
    requires Exec(files, a) == Outcome(mid, None)
    ensures Exec(files, a + b) == Exec(mid, b)
  {
    ExecAppend(files, a, b);
  }

  /** A run that stopped is not resumed by the effects after it. */
  lemma ExecStopped(files: map<string, Image>, a: seq<Effect>, b: seq<Effect>)
    requires Exec(files, a).missing.Some?
    ensures Exec(files, a + b) == Exec(files, a)
  {
    ExecAppend(files, a, b);
  }

  /** Saves alone never stop a run. */
  predicate OnlySaves(effects: seq<Effect>) {
    forall i :: 0 <= i < |effects| ==> effects[i].Save?
  }

  /** `effects[i]` is the last effect that names `p`. */
  predicate LastSaveTo(effects: seq<Effect>, p: string, i: int) {
    0 <= i < |effects| && effects[i].path == p &&
    forall j :: i < j < |effects| ==> effects[j].path != p
  }

  /** After a run of saves, a path holds the image of the last save to it, and
      every path no save names is as it was. */
  lemma ExecSaves(files: map<string, Image>, effects: seq<Effect>, p: string)
    requires OnlySaves(effects)
    ensures Exec(files, effects).missing == None
    ensures (forall i :: 0 <= i < |effects| ==> effects[i].path != p) ==>
      (p in Exec(files, effects).files <==> p in files) &&
      (p in files ==> Exec(files, effects).files[p] == files[p])
    ensures forall i :: LastSaveTo(effects, p, i) ==>
      p in Exec(files, effects).files && Exec(files, effects).files[p] == effects[i].image
  {
    ExecSavesComplete(files, effects);
    if forall i :: 0 <= i < |effects| ==> effects[i].path != p {
      ExecSavesUntouched(files, effects, p);
    }
    forall i | LastSaveTo(effects, p, i)
      ensures p in Exec(files, effects).files && Exec(files, effects).files[p] == effects[i].image
    {
      ExecLastSave(files, effects, p, i);
    }
  }

  /** A slice of saves is saves. */
  lemma OnlySavesSlice(effects: seq<Effect>, lo: nat, hi: nat)
    requires OnlySaves(effects) && lo <= hi <= |effects|
    ensures OnlySaves(effects[lo..hi])
  {
    forall i | 0 <= i < hi - lo ensures effects[lo..hi][i].Save? {
      assert effects[lo..hi][i] == effects[lo + i];
    }
  }

  lemma {:induction false} ExecSavesComplete(files: map<string, Image>, effects: seq<Effect>)
    requires OnlySaves(effects)
    ensures Exec(files, effects).missing == None
    decreases |effects|
  {
    if effects != [] {
      var e := effects[0];
      assert e.Save?;
      OnlySavesSlice(effects, 1, |effects|);
      assert effects[1..|effects|] == effects[1..];
      ExecSavesComplete(files[e.path := e.image], effects[1..]);
    }
  }

  lemma {:induction false} ExecSavesUntouched(files: map<string, Image>, effects: seq<Effect>, p: string)
    requires OnlySaves(effects)
    requires forall i :: 0 <= i < |effects| ==> effects[i].path != p
    ensures p in Exec(files, effects).files <==> p in files
    ensures p in files ==> Exec(files, effects).files[p] == files[p]
    decreases |effects|
  {
    if effects != [] {
      var e, rest := effects[0], effects[1..];
      assert e.Save? && e.path != p;
      forall i | 0 <= i < |rest| ensures rest[i].Save? && rest[i].path != p {
        assert rest[i] == effects[i + 1];
      }
      ExecSavesUntouched(files[e.path := e.image], rest, p);
    }
  }

  lemma ExecLastSave(files: map<string, Image>, effects: seq<Effect>, p: string, i: int)
    requires OnlySaves(effects) && LastSaveTo(effects, p, i)
    ensures p in Exec(files, effects).files && Exec(files, effects).files[p] == effects[i].image
  {
    var before, post := effects[..i], effects[i + 1..];
    var e := effects[i];
    assert effects == before + [e] + post;
    forall j | 0 <= j < |post| ensures post[j].Save? && post[j].path != p {
      assert post[j] == effects[i + 1 + j];
    }
    OnlySavesSlice(effects, 0, i);
    assert effects[0..i] == before;
    ExecAppend(files, before + [e], post);
    ExecAppend(files, before, [e]);
    ExecSavesComplete(files, before);
    var mid := Exec(files, before).files;
    assert e.Save?;
    assert Exec(mid, [e]) == Outcome(mid[p := e.image], None);
    ExecSavesUntouched(mid[p := e.image], post, p);
  }


  /** An optional unlink followed by an optional save: the run completes when
      the unlinked path is present. */
  lemma ExecUnlinkThenSave(files: map<string, Image>, p: string, unlink: bool,
                           q: string, img: Image, save: bool)
    requires p in files
    ensures Exec(files, (if unlink then [Unlink(p)] else []) + (if save then [Save(q, img)] else [])) ==
      Outcome(var after := if unlink then files - {p} else files;
              if save then after[q := img] else after, None)
  {
    var after := if unlink then files - {p} else files;
    var u: seq<Effect> := if unlink then [Unlink(p)] else [];
    var s: seq<Effect> := if save then [Save(q, img)] else [];
    ExecAppend(files, u, s);
    if unlink {
      assert u[1..] == [];
    }
    assert Exec(files, u) == Outcome(after, None);
    if save {
      assert s[1..] == [];
    }
  }

  /** The filesystem: a map from path to the image stored there. Every path is
      writable; `Save` and `Unlink` are the script's only writes. */
  class FileSystem {
    var files: map<string, Image>

    constructor (files: map<string, Image>)
      ensures this.files == files
    {
      this.files := files;
    }

    /** `nib.save(image, path)`: creates or overwrites `path`. */
    method Save(path: string, image: Image)
      modifies this
      ensures files == old(files)[path := image]
      ensures Exec(old(files), [Effect.Save(path, image)]) == Outcome(files, None)
    {
      files := files[path := image];
      assert [Effect.Save(path, image)][1..] == [];
    }

    /** `pathlib.Path(path).unlink()`: `ok` is false (a `FileNotFoundError`)
        when nothing is stored at `path`, and then nothing changes. */
    method Unlink(path: string) returns (ok: bool)
      modifies this
      ensures ok <==> path in old(files)
      ensures files == (if ok then old(files) - {path} else old(files))
      ensures Exec(old(files), [Effect.Unlink(path)]) == Outcome(files, if ok then None else Some(path))
    {
      ok := path in files;
      if ok {
        files := files - {path};
      }
    }
  }
}
