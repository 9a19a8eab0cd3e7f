/** What an applied bundle leaves at each path, and when an anchor counts as unambiguous. */
module RollbackLaws {
  import opened Wrappers
  import opened Sequences
  import opened Rollback

  // ---- anchors

  /** The pattern occurs in the text at `i`. */
  predicate OccursAt(text: string, pattern: string, i: nat) {
    i + |pattern| <= |text| && text[i..i + |pattern|] == pattern
  }

  /** The search finds the first occurrence, whenever there is one. */
  lemma {:induction false} FindIsFirst(text: string, pattern: string)
    ensures Find(text, pattern).None? <==> forall i: nat :: !OccursAt(text, pattern, i)
    ensures Find(text, pattern).Some? ==>
              var first := Find(text, pattern).value;
              OccursAt(text, pattern, first) && forall i: nat :: i < first ==> !OccursAt(text, pattern, i)
  {
    if StartsWith(text, pattern) {
      assert OccursAt(text, pattern, 0);
    } else if text != "" {
      FindIsFirst(text[1..], pattern);
      forall i: nat
        ensures i > 0 ==> (OccursAt(text, pattern, i) <==> OccursAt(text[1..], pattern, i - 1))
        ensures i == 0 ==> !OccursAt(text, pattern, i)
      {
        if i > 0 && i + |pattern| <= |text| {
          assert text[1..][i - 1..i - 1 + |pattern|] == text[i..i + |pattern|];
        }
      }
      if Find(text[1..], pattern).Some? {
        assert OccursAt(text, pattern, Find(text[1..], pattern).value + 1);
      } else {
        forall i: nat
          ensures !OccursAt(text, pattern, i)
        {
          assert i > 0 ==> !OccursAt(text[1..], pattern, i - 1);
        }
      }
    }
  }

  /** The pattern occurs at `i` first, and not once more behind that. */
  ghost predicate OccursOnceAt(text: string, pattern: string, i: nat) {
    && OccursAt(text, pattern, i) && (forall j: nat :: j < i ==> !OccursAt(text, pattern, j))
    && forall j: nat :: j >= i + |pattern| ==> !OccursAt(text, pattern, j)
  }

  lemma OccursBehind(text: string, pattern: string, from: nat, j: nat)
    requires from <= |text|
    ensures OccursAt(text[from..], pattern, j) <==> OccursAt(text, pattern, from + j)
  {
    if from + j + |pattern| <= |text| {
      assert text[from..][j..j + |pattern|] == text[from + j..from + j + |pattern|];
    }
  }

  lemma NothingBehind(text: string, pattern: string, from: nat)
    requires from <= |text|
    ensures Find(text[from..], pattern).None? <==> forall j: nat :: j >= from ==> !OccursAt(text, pattern, j)
  {
    hide OccursAt, Find;
    FindIsFirst(text[from..], pattern);
    forall j: nat
      ensures OccursAt(text[from..], pattern, j) <==> OccursAt(text, pattern, from + j)
    {
      OccursBehind(text, pattern, from, j);
    }
    if Find(text[from..], pattern).None? {
      forall j: nat | j >= from
        ensures !OccursAt(text, pattern, j)
      {
        assert !OccursAt(text[from..], pattern, j - from);
      }
    }
  }

  lemma CountUnfolds(text: string, pattern: string)
    requires pattern != ""
    ensures Count(text, pattern) == 1
       <==> Find(text, pattern).Some? && Find(text[Find(text, pattern).value + |pattern|..], pattern).None?
  {
    hide Find, Count;
    var first := Find(text, pattern);
    var rest := if first.Some? then text[first.value + |pattern|..] else "";
    CountStep(text, pattern, rest);
    NoneCounted(rest, pattern);
  }

  lemma CountStep(text: string, pattern: string, rest: string)
    requires pattern != ""
    requires Find(text, pattern).Some? ==> rest == text[Find(text, pattern).value + |pattern|..]
    ensures Count(text, pattern) == if Find(text, pattern).None? then 0 else 1 + Count(rest, pattern)
  {
    hide Find;
  }

  lemma NoneCounted(text: string, pattern: string)
    requires pattern != ""
    ensures Count(text, pattern) == 0 <==> Find(text, pattern).None?
  {
    hide Find;
  }

  /** A pattern is counted once when it occurs, and not again behind its first occurrence. */
  lemma CountOneExactly(text: string, pattern: string)
    requires pattern != ""
    ensures Count(text, pattern) == 1 <==> exists i: nat :: OccursOnceAt(text, pattern, i)
  {
    hide Count, Find, OccursAt;
    CountUnfolds(text, pattern);
    FindIsFirst(text, pattern);
    if Find(text, pattern).Some? {
      var first := Find(text, pattern).value;
      NothingBehind(text, pattern, first + |pattern|);
      assert Count(text, pattern) == 1 <==> OccursOnceAt(text, pattern, first);
      forall i: nat | OccursOnceAt(text, pattern, i)
        ensures i == first
      {
        assert i >= first && first >= i;
      }
    }
  }

  /** An empty pattern counts once in an empty text only. */
  lemma CountOfEmpty(text: string)
    ensures Count(text, "") == 1 <==> text == ""
  {
  }

  /** Replacements are made in order, each on the text those before it have left, and each anchor must be met once. */
  lemma {:induction false} TransformedInOrder(text: string, replacements: Replacements, anchor: string,
                                              replacement: string)
    ensures var before := Transformed(text, replacements);
            Transformed(text, replacements + [(anchor, replacement)])
            == if before.None? || Count(before.value, anchor) != 1 then None
               else Some(Replace(before.value, anchor, replacement))
    decreases |replacements|
  {
    hide Count, Replace;
    var all := replacements + [(anchor, replacement)];
    if replacements == [] {
      assert all[1..] == [];
      CountOfEmptyIs(text);
    } else {
      assert all[1..] == replacements[1..] + [(anchor, replacement)] && all[0] == replacements[0];
      if Count(text, replacements[0].0) == 1 {
        CountOfEmptyIs(text);
        TransformedInOrder(Replace(text, replacements[0].0, replacements[0].1), replacements[1..], anchor, replacement);
      }
    }
  }

  lemma CountOfEmptyIs(text: string)
    ensures Count(text, "") == |text| + 1
  {
  }

  // ---- new files, contents and modes

  lemma {:induction false} NewFilesElsewhere(files: Files, newFiles: seq<(string, string)>, path: string)
    requires path !in NewPaths(newFiles)
    ensures FileAt(WithNewFiles(files, newFiles), path) == FileAt(files, path)
  {
    if newFiles != [] {
      var n := |newFiles| - 1;
      assert newFiles[n].0 in NewPaths(newFiles);
      assert NewPaths(newFiles[..n]) <= NewPaths(newFiles);
      NewFilesElsewhere(files, newFiles[..n], path);
    }
  }

  predicate Executable(files: Files, path: string) {
    path in files && files[path].executable
  }

  lemma {:induction false} NewFilesKeepModes(files: Files, newFiles: seq<(string, string)>, path: string)
    ensures Executable(WithNewFiles(files, newFiles), path) <==> Executable(files, path)
  {
    if newFiles != [] {
      NewFilesKeepModes(files, newFiles[..|newFiles| - 1], path);
    }
  }

  lemma {:induction false} TransformsKeepModes(files: Files, transforms: seq<(string, Replacements)>, path: string)
    requires WithTransforms(files, transforms).Some?
    ensures Executable(WithTransforms(files, transforms).value, path) <==> Executable(files, path)
  {
    if transforms != [] {
      TransformsKeepModes(files, transforms[..|transforms| - 1], path);
    }
  }

  /** Marking files sets their mode and touches nothing else; it fails when one of them is missing. */
  lemma {:induction false} ModesExactly(files: Files, executables: seq<string>, path: string)
    ensures WithModes(files, executables).Some? <==> forall p <- executables :: p in files
    ensures WithModes(files, executables).Some? ==>
              var after := WithModes(files, executables).value;
              && (path in after <==> path in files)
              && (path in files ==> after[path].content == files[path].content)
              && (path in files ==> (after[path].executable <==> files[path].executable || path in executables))
  {
    if executables != [] {
      var init, last := executables[..|executables| - 1], executables[|executables| - 1];
      ModesExactly(files, init, path);
      ModesExactly(files, init, last);
      assert executables == init + [last];
      assert last in executables;
    }
  }

  /** After a bundle exactly the listed scripts, and the files that were before, are executable. */
  lemma AppliedModesExactly(files: Files, bundle: Bundle, path: string)
    requires Applied(files, bundle).Some?
    ensures var after := Applied(files, bundle).value;
            && (path in bundle.executables ==> path in after)
            && (Executable(after, path) <==> path in bundle.executables || Executable(files, path))
  {
    hide WithNewFiles, WithTransforms, WithModes;
    var written := WithNewFiles(files, bundle.newFiles);
    var transformed := WithTransforms(written, bundle.transforms).value;
    NewFilesKeepModes(files, bundle.newFiles, path);
    TransformsKeepModes(written, bundle.transforms, path);
    ModesExactly(transformed, bundle.executables, path);
  }

  /** The new file at `i` is the last given for its path. */
  ghost predicate LastForPath(newFiles: seq<(string, string)>, i: nat) {
    i < |newFiles| && forall j :: i < j < |newFiles| ==> newFiles[j].0 != newFiles[i].0
  }

  /** A path without a transform holds the last new content given for it, and else what it held before. */
  lemma AppliedContentExactly(files: Files, bundle: Bundle, path: string)
    requires Applied(files, bundle).Some? && path !in TransformPaths(bundle.transforms)
    ensures var after := Applied(files, bundle).value;
            && (path !in NewPaths(bundle.newFiles) ==>
                  && (path in after <==> path in files)
                  && (path in files ==> after[path].content == files[path].content))
            && forall i: nat :: LastForPath(bundle.newFiles, i) && bundle.newFiles[i].0 == path ==>
                 path in after && after[path].content == bundle.newFiles[i].1
  {
    hide WithNewFiles, WithTransforms, WithModes;
    var written := WithNewFiles(files, bundle.newFiles);
    var transformed := WithTransforms(written, bundle.transforms).value;
    TransformsKeepOthers(written, bundle.transforms, path);
    ModesExactly(transformed, bundle.executables, path);
    if path !in NewPaths(bundle.newFiles) {
      NewFilesElsewhere(files, bundle.newFiles, path);
    }
    forall i: nat | LastForPath(bundle.newFiles, i) && bundle.newFiles[i].0 == path
      ensures path in written && written[path].content == bundle.newFiles[i].1
    {
      LaterNewFilesWin(files, bundle.newFiles, i);
    }
  }

  /** A transformed path holds the text it had after the new files were written, with its anchors replaced in turn. */
  lemma AppliedTransformExactly(files: Files, bundle: Bundle, i: nat)
    requires Applied(files, bundle).Some? && i < |bundle.transforms|
    requires forall j, k :: 0 <= j < k < |bundle.transforms| ==> bundle.transforms[j].0 != bundle.transforms[k].0
    ensures var path, after := bundle.transforms[i].0, Applied(files, bundle).value;
            && path in after
            && (path !in NewPaths(bundle.newFiles) ==>
                  path in files
                  && Transformed(files[path].content, bundle.transforms[i].1) == Some(after[path].content))
            && forall k: nat :: LastForPath(bundle.newFiles, k) && bundle.newFiles[k].0 == path ==>
                 Transformed(bundle.newFiles[k].1, bundle.transforms[i].1) == Some(after[path].content)
  {
    hide WithNewFiles, WithTransforms, WithModes, Transformed;
    var path := bundle.transforms[i].0;
    var written := WithNewFiles(files, bundle.newFiles);
    var transformed := WithTransforms(written, bundle.transforms).value;
    TransformsApply(written, bundle.transforms, i);
    ModesExactly(transformed, bundle.executables, path);
    if path !in NewPaths(bundle.newFiles) {
      NewFilesElsewhere(files, bundle.newFiles, path);
    }
    forall k: nat | LastForPath(bundle.newFiles, k) && bundle.newFiles[k].0 == path
      ensures written[path].content == bundle.newFiles[k].1
    {
      LaterNewFilesWin(files, bundle.newFiles, k);
    }
  }

  // ---- a finished run

  /**
   A finished run leaves the evidence, the patch unless the evidence went to the same path, and else what the bundle
   and the verification commands made.
   */
  lemma FinalFilesExactly(applied: Files, options: Options, side: SideEffects, patch: string, evidence: string,
                          path: string)
    ensures var final := FinalFiles(applied, options, side, patch, evidence);
            && options.evidencePath in final && final[options.evidencePath].content == evidence
            && options.patchPath in final
            && (options.patchPath != options.evidencePath ==> final[options.patchPath].content == patch)
            && (path != options.patchPath && path != options.evidencePath ==>
                  if !options.verify then FileAt(final, path) == FileAt(applied, path)
                  else if path in side.removed then path !in final
                  else if path in side.written then FileAt(final, path) == Some(side.written[path])
                  else FileAt(final, path) == FileAt(applied, path))
  {
  }
}
