/** `locate_t1ws`: collecting the T1-weighted NIfTI files of a directory tree. */
module Locator {
  import opened PyStrings

  /** One step of `os.walk`: a directory and the names of the files directly
      in it (the sub-directory names the walk also yields are not used). */
  datatype WalkStep = WalkStep(root: string, files: seq<string>)

  /** A file name the locator keeps. */
  predicate IsT1wFile(name: string) {
    EndsWith(name, "_T1w.nii.gz") || EndsWith(name, "_T1w.nii")
  }

  /** The path recorded for `file` found under `root`. */
  function JoinPath(root: string, file: string): string {
    root + "/" + file
  }

  /** The kept paths of one directory, in the order of its file names. */
  function KeptIn(root: string, files: seq<string>): seq<string>
    decreases |files|
  {
    if files == [] then []
    else
      var last := files[|files| - 1];
      KeptIn(root, files[..|files| - 1]) + (if IsT1wFile(last) then [JoinPath(root, last)] else [])
  }

  /** The kept paths of a whole walk, in walk order. */
  function T1wPaths(walk: seq<WalkStep>): seq<string>
    decreases |walk|
  {
    if walk == [] then []
    else
      var last := walk[|walk| - 1];
      T1wPaths(walk[..|walk| - 1]) + KeptIn(last.root, last.files)
  }

  /** `locate_t1ws(path)`, given the sequence of steps `os.walk(path)` yields:
      one pass over the steps and, inside, over each step's file names,
      appending every kept file's path. */
  method LocateT1ws(walk: seq<WalkStep>) returns (t1ws: seq<string>)
    ensures t1ws == T1wPaths(walk)
  {
    t1ws := [];
    for i := 0 to |walk|
      invariant t1ws == T1wPaths(walk[..i])
    {
      var step := walk[i];
      assert walk[..i + 1][..i] == walk[..i];
      for j := 0 to |step.files|
        invariant t1ws == T1wPaths(walk[..i]) + KeptIn(step.root, step.files[..j])
      {
        var file := step.files[j];
        assert step.files[..j + 1][..j] == step.files[..j];
        if EndsWith(file, "_T1w.nii.gz") || EndsWith(file, "_T1w.nii") {
          t1ws := t1ws + [step.root + "/" + file];
        }
      }
      assert step.files[..|step.files|] == step.files;
    }
    assert walk[..|walk|] == walk;
  }

  // ---------------------------------------------------------------------------
  // What the list holds
  // ---------------------------------------------------------------------------

  /** A directory's kept paths are exactly the joined paths of its T1w files. */
  lemma {:induction false} KeptInMembers(root: string, files: seq<string>, p: string)
    ensures p in KeptIn(root, files) <==>
      exists j :: 0 <= j < |files| && IsT1wFile(files[j]) && p == JoinPath(root, files[j])
    decreases |files|
  {
    if files != [] {
      var init := files[..|files| - 1];
      KeptInMembers(root, init, p);
      if exists j :: 0 <= j < |init| && IsT1wFile(init[j]) && p == JoinPath(root, init[j]) {
        var j :| 0 <= j < |init| && IsT1wFile(init[j]) && p == JoinPath(root, init[j]);
        assert files[j] == init[j];
      }
      if exists j :: 0 <= j < |files| && IsT1wFile(files[j]) && p == JoinPath(root, files[j]) {
        var j :| 0 <= j < |files| && IsT1wFile(files[j]) && p == JoinPath(root, files[j]);
        if j < |init| {
          assert init[j] == files[j];
        }
      }
    }
  }

  /** `p` is the joined path of the T1w file `walk[i].files[j]`. */
  ghost predicate FoundAt(walk: seq<WalkStep>, p: string, i: int, j: int) {
    0 <= i < |walk| && 0 <= j < |walk[i].files| &&
    IsT1wFile(walk[i].files[j]) && p == JoinPath(walk[i].root, walk[i].files[j])
  }

  /** The result holds `root + '/' + file` for every T1w file of every step,
      and nothing else; an empty walk gives an empty list. */
  lemma {:induction false} T1wPathsMembers(walk: seq<WalkStep>, p: string)
    ensures walk == [] ==> T1wPaths(walk) == []
    ensures p in T1wPaths(walk) <==> exists i, j :: FoundAt(walk, p, i, j)
    decreases |walk|
  {
    if walk != [] {
      var init := walk[..|walk| - 1];
      var last := walk[|walk| - 1];
      assert T1wPaths(walk) == T1wPaths(init) + KeptIn(last.root, last.files);
      T1wPathsMembers(init, p);
      KeptInMembers(last.root, last.files, p);
      if p in T1wPaths(init) {
        var i, j :| FoundAt(init, p, i, j);
        assert walk[i] == init[i];
        assert FoundAt(walk, p, i, j);
      } else if p in KeptIn(last.root, last.files) {
        var j :| 0 <= j < |last.files| && IsT1wFile(last.files[j]) && p == JoinPath(last.root, last.files[j]);
        assert FoundAt(walk, p, |walk| - 1, j);
      }
      if exists i, j :: FoundAt(walk, p, i, j) {
        var i, j :| FoundAt(walk, p, i, j);
        if i < |init| {
          assert init[i] == walk[i];
          assert FoundAt(init, p, i, j);
        }
      }
    }
  }

  /** Walk order is kept: the result for a walk split in two is the result for
      the first part followed by the result for the second. */
  lemma {:induction false} T1wPathsAppend(w1: seq<WalkStep>, w2: seq<WalkStep>)
    ensures T1wPaths(w1 + w2) == T1wPaths(w1) + T1wPaths(w2)
    decreases |w2|
  {
    if w2 == [] {
      assert w1 + w2 == w1;
    } else {
      var init := w2[..|w2| - 1];
      var last := w2[|w2| - 1];
      assert (w1 + w2)[..|w1 + w2| - 1] == w1 + init;
      assert (w1 + w2)[|w1 + w2| - 1] == last;
      assert T1wPaths(w2) == T1wPaths(init) + KeptIn(last.root, last.files);
      assert T1wPaths(w1 + w2) == T1wPaths(w1 + init) + KeptIn(last.root, last.files);
      T1wPathsAppend(w1, init);
    }
  }

  /** Every recorded path ends with one of the two suffixes. */
  lemma T1wPathsEndWithSuffix(walk: seq<WalkStep>, p: string)
    requires p in T1wPaths(walk)
    ensures EndsWith(p, "_T1w.nii.gz") || EndsWith(p, "_T1w.nii")
  {
    T1wPathsMembers(walk, p);
    var i, j :| FoundAt(walk, p, i, j);
    var file := walk[i].files[j];
    assert p == (walk[i].root + "/") + file;
    if EndsWith(file, "_T1w.nii.gz") {
      EndsWithPrefixed(walk[i].root + "/", file, "_T1w.nii.gz");
    } else {
      EndsWithPrefixed(walk[i].root + "/", file, "_T1w.nii");
    }
  }
}
