/**
 The script's own apply, verify, patch and rollback over the files of a checkout.

 The file system is a dictionary from path to file. A write may fail at any point and then leaves anything at all
 in the file it was writing. Verification commands may write and remove files of their own. The input and output of
 the rollback itself are taken to succeed.
 */
module Rollback {
  import opened Wrappers
  import opened Sequences

  datatype File = File(content: string, executable: bool)

  type Files = map<string, File>

  /** What is at a path, if anything. */
  function FileAt(files: Files, path: string): Option<File> {
    if path in files then Some(files[path]) else None
  }

  ghost predicate AgreeOutside(a: Files, b: Files, paths: set<string>) {
    forall path :: path !in paths ==> FileAt(a, path) == FileAt(b, path)
  }

  ghost predicate AgreeOn(a: Files, b: Files, paths: set<string>) {
    forall path :: path in paths ==> FileAt(a, path) == FileAt(b, path)
  }

  // ---- text replacement

  predicate StartsWith(text: string, pattern: string) {
    |pattern| <= |text| && text[..|pattern|] == pattern
  }

  /** The first place `pattern` occurs. */
  function Find(text: string, pattern: string): (r: Option<nat>)
    ensures r.Some? ==> r.value + |pattern| <= |text| && text[r.value..r.value + |pattern|] == pattern
  {
    if StartsWith(text, pattern) then Some(0)
    else if text == "" then None
    else
      var later := Find(text[1..], pattern);
      if later.Some? then
        assert text[1..][later.value..later.value + |pattern|] == text[later.value + 1..later.value + 1 + |pattern|];
        Some(later.value + 1)
      else None
  }

  /** `str.count`: occurrences that do not overlap, from the left. */
  function Count(text: string, pattern: string): nat
    decreases |text|
  {
    if pattern == "" then |text| + 1
    else
      var first := Find(text, pattern);
      if first == None then 0 else 1 + Count(text[first.value + |pattern|..], pattern)
  }

  /** `str.replace`; an empty pattern counts once only in an empty text. */
  function Replace(text: string, pattern: string, replacement: string): string
    requires pattern == "" ==> text == ""
    decreases |text|
  {
    var first := Find(text, pattern);
    if pattern == "" then replacement
    else if first == None then text
    else
      text[..first.value] + replacement + Replace(text[first.value + |pattern|..], pattern, replacement)
  }

  /** An anchor counted once is replaced in one place, and nothing around it changes. */
  lemma ReplaceOnce(text: string, pattern: string, replacement: string)
    requires Count(text, pattern) == 1
    ensures exists before, after ::
      text == before + pattern + after && Replace(text, pattern, replacement) == before + replacement + after
  {
    if pattern == "" {
      assert text == "" + pattern + "" && Replace(text, pattern, replacement) == "" + replacement + "";
      return;
    }
    var i := Find(text, pattern).value;
    var before, after := text[..i], text[i + |pattern|..];
    assert text == before + text[i..i + |pattern|] + after;
    assert Find(after, pattern) == None;
    assert text == before + pattern + after && Replace(text, pattern, replacement) == before + replacement + after;
  }

  type Replacements = seq<(string, string)>

  /** All replacements in order; `None` when an anchor does not occur exactly once. */
  function Transformed(text: string, replacements: Replacements): Option<string>
    decreases |replacements|
  {
    if replacements == [] then Some(text)
    else
      var (anchor, replacement) := replacements[0];
      if Count(text, anchor) != 1 then None
      else Transformed(Replace(text, anchor, replacement), replacements[1..])
  }

  // ---- the bundle

  datatype Bundle = Bundle(newFiles: seq<(string, string)>, transforms: seq<(string, Replacements)>,
                           executables: seq<string>)

  function NewPaths(newFiles: seq<(string, string)>): set<string> {
    set f | f in newFiles :: f.0
  }

  function TransformPaths(transforms: seq<(string, Replacements)>): set<string> {
    set t | t in transforms :: t.0
  }

  /** `changed_paths`. */
  function Touched(bundle: Bundle): set<string> {
    NewPaths(bundle.newFiles) + TransformPaths(bundle.transforms)
  }

  /** The scripts marked executable are among the new or changed files. */
  ghost predicate ExecutablesTouched(bundle: Bundle) {
    forall path <- bundle.executables :: path in Touched(bundle)
  }

  function Written(files: Files, path: string, content: string): Files {
    files[path := File(content, path in files && files[path].executable)]
  }

  function WithNewFiles(files: Files, newFiles: seq<(string, string)>): Files {
    if newFiles == [] then files
    else
      var n := |newFiles| - 1;
      Written(WithNewFiles(files, newFiles[..n]), newFiles[n].0, newFiles[n].1)
  }

  /** `None` where a file to transform is missing or an anchor is ambiguous. */
  function WithTransforms(files: Files, transforms: seq<(string, Replacements)>): Option<Files> {
    if transforms == [] then Some(files)
    else
      var n := |transforms| - 1;
      var before, path := WithTransforms(files, transforms[..n]), transforms[n].0;
      if before == None || path !in before.value then None
      else
        var text := Transformed(before.value[path].content, transforms[n].1);
        if text == None then None else Some(Written(before.value, path, text.value))
  }

  function WithModes(files: Files, executables: seq<string>): Option<Files> {
    if executables == [] then Some(files)
    else
      var n := |executables| - 1;
      var before, path := WithModes(files, executables[..n]), executables[n];
      if before == None || path !in before.value then None
      else Some(before.value[path := before.value[path].(executable := true)])
  }

  /** What the files are after the whole bundle. */
  function Applied(files: Files, bundle: Bundle): Option<Files> {
    var transformed := WithTransforms(WithNewFiles(files, bundle.newFiles), bundle.transforms);
    if transformed == None then None else WithModes(transformed.value, bundle.executables)
  }

  datatype Options = Options(apply: bool, verify: bool, close: bool, confirmed: bool, keepOnFailure: bool,
                             patchPath: string, evidencePath: string)

  datatype Event = RolledBack | IssueUpdatesStarted

  datatype Outcome = Refused | ReadOnly | Cancelled | Failed | IssueUpdateFailed | Done

  /** What the verification commands do to files before they end or one of them fails. */
  datatype SideEffects = SideEffects(written: Files, removed: set<string>)

  /** The step of the `try` block at which a run ended. */
  datatype Stage = Applying | Verifying | MakingPatch | WritingPatch | WritingEvidence | Finished

  function Verified(files: Files, options: Options, side: SideEffects): Files {
    if options.verify then (files + side.written) - side.removed else files
  }

  function FinalFiles(applied: Files, options: Options, side: SideEffects, patch: string, evidence: string): Files {
    Written(Written(Verified(applied, options, side), options.patchPath, patch), options.evidencePath, evidence)
  }

  /** Up to this stage a run writes to touched paths only. */
  predicate WritesNothingElse(options: Options, stage: Stage) {
    stage == Applying || (stage == MakingPatch && !options.verify)
  }

  function PutAt(files: Files, path: string, file: Option<File>): Files {
    if file.Some? then files[path := file.value] else files - {path}
  }

  /**
   The files when the run ended, as far as the bundle does not touch them. `torn` is what the write that failed, if
   any, left at its path.
   */
  function AtFailure(files: Files, options: Options, side: SideEffects, patch: string, stage: Stage,
                     torn: Option<File>): Files
  {
    match stage
    case Applying => files
    case Verifying => Verified(files, options, side)
    case MakingPatch => Verified(files, options, side)
    case WritingPatch => PutAt(Verified(files, options, side), options.patchPath, torn)
    case _ => PutAt(Written(Verified(files, options, side), options.patchPath, patch), options.evidencePath, torn)
  }

  /** The files of `inside` on `paths`, those of `outside` elsewhere. */
  function Mixed(inside: Files, outside: Files, paths: set<string>): Files {
    map path | path in inside.Keys + outside.Keys && path in (if path in paths then inside else outside) ::
      if path in paths then inside[path] else outside[path]
  }

  lemma MixedAt(inside: Files, outside: Files, paths: set<string>, path: string)
    ensures FileAt(Mixed(inside, outside, paths), path) == FileAt(if path in paths then inside else outside, path)
  {
  }

  lemma SameFiles(a: Files, b: Files)
    requires forall path :: FileAt(a, path) == FileAt(b, path)
    ensures a == b
  {
    forall path
      ensures path in a <==> path in b
      ensures path in a ==> a[path] == b[path]
    {
      assert FileAt(a, path) == FileAt(b, path);
    }
    assert a.Keys == b.Keys;
  }

  lemma VerifiedAgrees(a: Files, b: Files, options: Options, side: SideEffects, paths: set<string>)
    requires AgreeOutside(a, b, paths)
    ensures AgreeOutside(Verified(a, options, side), Verified(b, options, side), paths)
  {
    forall path | path !in paths
      ensures FileAt(Verified(a, options, side), path) == FileAt(Verified(b, options, side), path)
    {
      assert FileAt(a, path) == FileAt(b, path);
    }
  }

  lemma WrittenAgrees(a: Files, b: Files, path: string, content: string, paths: set<string>)
    requires AgreeOutside(a, b, paths)
    ensures AgreeOutside(Written(a, path, content), Written(b, path, content), paths)
  {
    forall p | p !in paths
      ensures FileAt(Written(a, path, content), p) == FileAt(Written(b, path, content), p)
    {
      assert FileAt(a, p) == FileAt(b, p);
    }
  }

  lemma PutAtFollows(after: Files, a: Files, b: Files, path: string, paths: set<string>)
    requires AgreeOutside(after, a, {path}) && AgreeOutside(a, b, paths)
    ensures AgreeOutside(after, PutAt(b, path, FileAt(after, path)), paths)
  {
    forall p | p !in paths
      ensures FileAt(after, p) == FileAt(PutAt(b, path, FileAt(after, path)), p)
    {
      assert p == path || FileAt(after, p) == FileAt(a, p) == FileAt(b, p);
    }
  }

  class Checkout {
    var files: Files
    var events: seq<Event>

    constructor (files: Files)
      ensures this.files == files && events == []
    {
      this.files := files;
      events := [];
    }

    /** `backup_paths`: which paths existed, and copies of those that did. */
    method BackupPaths(paths: seq<string>) returns (manifest: map<string, bool>, backup: Files)
      ensures manifest.Keys == Elements(paths)
      ensures forall path <- manifest :: manifest[path] == (path in files)
      ensures forall path <- manifest :: path in files ==> path in backup && backup[path] == files[path]
    {
      manifest, backup := map[], map[];
      for i := 0 to |paths|
        invariant manifest.Keys == Elements(paths[..i])
        invariant forall path <- manifest :: manifest[path] == (path in files)
        invariant forall path <- manifest :: path in files ==> path in backup && backup[path] == files[path]
      {
        assert paths[..i + 1] == paths[..i] + [paths[i]];
        manifest := manifest[paths[i] := paths[i] in files];
        if paths[i] in files {
          backup := backup[paths[i] := files[paths[i]]];
        }
      }
      assert paths[..|paths|] == paths;
    }

    /** `restore_paths`. */
    method RestorePaths(manifest: map<string, bool>, backup: Files, ghost initial: Files)
      requires forall path <- manifest :: manifest[path] == (path in initial)
      requires forall path <- manifest :: path in initial ==> path in backup && backup[path] == initial[path]
      modifies this
      ensures AgreeOn(files, initial, manifest.Keys) && AgreeOutside(files, old(files), manifest.Keys)
      ensures events == old(events) + [RolledBack]
    {
      var rest := manifest.Keys;
      while rest != {}
        invariant rest <= manifest.Keys && events == old(events)
        invariant AgreeOn(files, initial, manifest.Keys - rest) && AgreeOutside(files, old(files), manifest.Keys - rest)
        decreases rest
      {
        var path :| path in rest;
        if manifest[path] {
          files := files[path := backup[path]];
        } else if path in files {
          files := files - {path};
        }
        rest := rest - {path};
      }
      events := events + [RolledBack];
    }

    /** Writes a file; on failure anything may be left in it. */
    method Write(path: string, content: string) returns (ok: bool)
      modifies this`files
      ensures AgreeOutside(files, old(files), {path})
      ensures ok ==> files == Written(old(files), path, content)
    {
      if * {
        var partial: File := *;
        files := files[path := partial];
        return false;
      }
      if * {
        return false;
      }
      files := Written(files, path, content);
      ok := true;
    }

    method WriteNewFiles(newFiles: seq<(string, string)>) returns (ok: bool)
      modifies this`files
      ensures AgreeOutside(files, old(files), NewPaths(newFiles))
      ensures ok ==> files == WithNewFiles(old(files), newFiles)
    {
      for i := 0 to |newFiles|
        invariant AgreeOutside(files, old(files), NewPaths(newFiles))
        invariant files == WithNewFiles(old(files), newFiles[..i])
      {
        assert newFiles[i].0 in NewPaths(newFiles);
        assert newFiles[..i + 1][..i] == newFiles[..i];
        var written := Write(newFiles[i].0, newFiles[i].1);
        if !written {
          return false;
        }
      }
      assert newFiles[..|newFiles|] == newFiles;
      ok := true;
    }

    /** Reads a file and applies its replacements, re-checking every anchor. */
    method TransformFile(path: string, replacements: Replacements) returns (ok: bool)
      modifies this`files
      ensures AgreeOutside(files, old(files), {path})
      ensures ok ==> path in old(files) && Transformed(old(files)[path].content, replacements).Some?
                     && files == Written(old(files), path, Transformed(old(files)[path].content, replacements).value)
    {
      if path !in files {
        return false;
      }
      var text := files[path].content;
      for i := 0 to |replacements|
        invariant Transformed(text, replacements[i..]) == Transformed(files[path].content, replacements)
      {
        assert replacements[i..][0] == replacements[i] && replacements[i..][1..] == replacements[i + 1..];
        if Count(text, replacements[i].0) != 1 {
          return false;
        }
        text := Replace(text, replacements[i].0, replacements[i].1);
      }
      ok := Write(path, text);
    }

    method TransformFiles(transforms: seq<(string, Replacements)>) returns (ok: bool)
      modifies this`files
      ensures AgreeOutside(files, old(files), TransformPaths(transforms))
      ensures ok ==> WithTransforms(old(files), transforms) == Some(files)
    {
      for i := 0 to |transforms|
        invariant AgreeOutside(files, old(files), TransformPaths(transforms))
        invariant WithTransforms(old(files), transforms[..i]) == Some(files)
      {
        assert transforms[i].0 in TransformPaths(transforms);
        assert transforms[..i + 1][..i] == transforms[..i];
        var transformed := TransformFile(transforms[i].0, transforms[i].1);
        if !transformed {
          return false;
        }
      }
      assert transforms[..|transforms|] == transforms;
      ok := true;
    }

    method MarkExecutable(executables: seq<string>) returns (ok: bool)
      modifies this`files
      ensures AgreeOutside(files, old(files), Elements(executables))
      ensures ok ==> WithModes(old(files), executables) == Some(files)
    {
      for i := 0 to |executables|
        invariant AgreeOutside(files, old(files), Elements(executables))
        invariant WithModes(old(files), executables[..i]) == Some(files)
      {
        assert executables[i] in Elements(executables);
        assert executables[..i + 1][..i] == executables[..i];
        var refused := *;
        if refused || executables[i] !in files {
          return false;
        }
        files := files[executables[i] := files[executables[i]].(executable := true)];
      }
      assert executables[..|executables|] == executables;
      ok := true;
    }

    /** `apply_bundle`; not `ok` where it raises, at whatever step. */
    method ApplyBundle(bundle: Bundle) returns (ok: bool)
      requires ExecutablesTouched(bundle)
      modifies this`files
      ensures AgreeOutside(files, old(files), Touched(bundle))
      ensures ok ==> Applied(old(files), bundle) == Some(files)
    {
      ok := WriteNewFiles(bundle.newFiles);
      if ok {
        ok := TransformFiles(bundle.transforms);
        if ok {
          assert Elements(bundle.executables) <= Touched(bundle);
          ok := MarkExecutable(bundle.executables);
        }
      }
    }

    /** Verification commands: they may fail, and may write and remove files. */
    method Verify(side: SideEffects) returns (ok: bool)
      modifies this`files
      ensures files == (old(files) + side.written) - side.removed
    {
      files := (files + side.written) - side.removed;
      ok := *;
    }

    /** The steps of the `try` block; `stage` says how far they got. */
    method Steps(options: Options, bundle: Bundle, side: SideEffects, patch: string, evidence: string)
      returns (ok: bool, ghost stage: Stage, ghost torn: Option<File>)
      requires ExecutablesTouched(bundle)
      modifies this`files
      ensures (ok <==> stage == Finished) && (stage == Verifying ==> options.verify)
      ensures patch == "" ==> stage in {Applying, Verifying, MakingPatch}
      ensures AgreeOutside(files, AtFailure(old(files), options, side, patch, stage, torn), Touched(bundle))
      ensures ok ==> Applied(old(files), bundle).Some?
                     && files == FinalFiles(Applied(old(files), bundle).value, options, side, patch, evidence)
    {
      torn := None;
      ok := ApplyBundle(bundle);
      if !ok {
        return false, Applying, None;
      }
      ghost var applied := files;
      if options.verify {
        ok := Verify(side);
        if !ok {
          return false, Verifying, None;
        }
      }
      assert files == Verified(applied, options, side);
      VerifiedAgrees(applied, old(files), options, side, Touched(bundle));
      ghost var verified := files;
      var noPatch := *;
      if noPatch || patch == "" {
        return false, MakingPatch, None;
      }
      ok := Write(options.patchPath, patch);
      PutAtFollows(files, verified, Verified(old(files), options, side), options.patchPath, Touched(bundle));
      if !ok {
        return false, WritingPatch, FileAt(files, options.patchPath);
      }
      WrittenAgrees(verified, Verified(old(files), options, side), options.patchPath, patch, Touched(bundle));
      ghost var patched := files;
      ok := Write(options.evidencePath, evidence);
      PutAtFollows(files, patched, Written(Verified(old(files), options, side), options.patchPath, patch),
                   options.evidencePath, Touched(bundle));
      return ok, if ok then Finished else WritingEvidence, FileAt(files, options.evidencePath);
    }

    /** `main`, after the preflight checks have passed. */
    method RunScript(options: Options, bundle: Bundle, changedPaths: seq<string>, side: SideEffects, patch: string,
                     evidence: string)
      returns (outcome: Outcome, ghost stage: Stage, ghost torn: Option<File>)
      requires ExecutablesTouched(bundle) && Elements(changedPaths) == Touched(bundle) && events == []
      modifies this
      // Nothing happens without the right options.
      ensures outcome == Refused
         <==> (options.close && !(options.apply && options.verify)) || (options.verify && !options.apply)
      ensures outcome in {Refused, ReadOnly, Cancelled} ==> files == old(files) && events == []
      // A failed run leaves every touched path as it was, and elsewhere exactly what was done up to the failure.
      ensures outcome == Failed && !options.keepOnFailure ==>
        files == Mixed(old(files), AtFailure(old(files), options, side, patch, stage, torn), Touched(bundle))
        && events == [RolledBack]
      ensures outcome == Failed && !options.keepOnFailure && WritesNothingElse(options, stage) ==> files == old(files)
      ensures outcome == Failed && options.keepOnFailure ==>
        AgreeOutside(files, AtFailure(old(files), options, side, patch, stage, torn), Touched(bundle)) && events == []
      ensures outcome == Failed ==>
        && stage != Finished && (stage == Verifying ==> options.verify)
        && (patch == "" ==> stage in {Applying, Verifying, MakingPatch})
      // A finished run leaves the bundle, the patch and the evidence, and may only then have updated issues.
      ensures outcome in {Done, IssueUpdateFailed} ==>
        Applied(old(files), bundle).Some?
        && files == FinalFiles(Applied(old(files), bundle).value, options, side, patch, evidence)
      ensures IssueUpdatesStarted in events ==>
        events == [IssueUpdatesStarted] && options.apply && options.verify && options.close
        && outcome in {Done, IssueUpdateFailed}
      ensures outcome == Done && options.close ==> IssueUpdatesStarted in events
    {
      stage, torn := Applying, None;
      if options.close && (!options.apply || !options.verify) {
        outcome := Refused;
        return;
      }
      if options.verify && !options.apply {
        outcome := Refused;
        return;
      }
      if !options.apply {
        outcome := ReadOnly;
        return;
      }
      if !options.confirmed {
        outcome := Cancelled;
        return;
      }
      var manifest, backup := BackupPaths(changedPaths);
      ghost var initial := files;
      var ok;
      ok, stage, torn := Steps(options, bundle, side, patch, evidence);
      if !ok {
        outcome := Failed;
        ghost var failed := files;
        if !options.keepOnFailure {
          RestorePaths(manifest, backup, initial);
          ghost var outside := AtFailure(initial, options, side, patch, stage, torn);
          RestoredIsMixed(initial, failed, files, outside, Touched(bundle));
        }
        return;
      }
      if options.close {
        events := events + [IssueUpdatesStarted];
        if * {
          outcome := IssueUpdateFailed;
          return;
        }
      }
      outcome := Done;
    }
  }

  lemma RestoredIsMixed(initial: Files, failed: Files, restored: Files, outside: Files, paths: set<string>)
    requires AgreeOn(restored, initial, paths)
    requires AgreeOutside(restored, failed, paths) && AgreeOutside(failed, outside, paths)
    ensures restored == Mixed(initial, outside, paths)
    ensures outside == initial ==> restored == initial
  {
    forall path
      ensures FileAt(restored, path) == FileAt(Mixed(initial, outside, paths), path)
      ensures outside == initial ==> FileAt(restored, path) == FileAt(initial, path)
    {
      MixedAt(initial, outside, paths, path);
      assert path in paths || FileAt(restored, path) == FileAt(failed, path) == FileAt(outside, path);
    }
    SameFiles(restored, Mixed(initial, outside, paths));
    if outside == initial {
      SameFiles(restored, initial);
    }
  }

  // ---- when a rollback restores the whole checkout

  /** Outside `paths` the verification commands left everything as it was. */
  ghost predicate HarmlessOutside(files: Files, options: Options, side: SideEffects, paths: set<string>) {
    AgreeOutside(Verified(files, options, side), files, paths)
  }

  /** The patch as written: the mode of an existing file stays. */
  function PatchFile(files: Files, options: Options, patch: string): File {
    File(patch, options.patchPath in files && files[options.patchPath].executable)
  }

  /** What it takes for the whole checkout to be as before, told by the stage at which the run failed. */
  ghost predicate NothingRemains(files: Files, options: Options, side: SideEffects, patch: string, touched: set<string>,
                                 stage: Stage, torn: Option<File>)
  {
    var patchPath, evidencePath := options.patchPath, options.evidencePath;
    match stage
    case Applying => true
    case Verifying => HarmlessOutside(files, options, side, touched)
    case MakingPatch => HarmlessOutside(files, options, side, touched)
    case WritingPatch =>
      && HarmlessOutside(files, options, side, touched + {patchPath})
      && (patchPath in touched || torn == FileAt(files, patchPath))
    case _ =>
      && HarmlessOutside(files, options, side, touched + {patchPath, evidencePath})
      && (evidencePath in touched || torn == FileAt(files, evidencePath))
      && (patchPath in touched + {evidencePath}
          || FileAt(files, patchPath) == Some(PatchFile(Verified(files, options, side), options, patch)))
  }

  /**
   After a failed run and its rollback the whole checkout is as before exactly when the run failed while applying, or
   the verification commands changed nothing but touched paths and no patch or torn file is new.
   */
  lemma FullRestorationExactly(files: Files, options: Options, side: SideEffects, patch: string, touched: set<string>,
                               stage: Stage, torn: Option<File>)
    ensures Mixed(files, AtFailure(files, options, side, patch, stage, torn), touched) == files
       <==> NothingRemains(files, options, side, patch, touched, stage, torn)
  {
    var after := AtFailure(files, options, side, patch, stage, torn);
    RestoredExactly(files, after, touched);
    var verified := Verified(files, options, side);
    match stage
    case WritingPatch =>
      PutAtAgrees(files, verified, options.patchPath, torn, touched);
    case Applying =>
    case Verifying =>
    case MakingPatch =>
    case _ =>
      PutAtAgrees(files, Written(verified, options.patchPath, patch), options.evidencePath, torn, touched);
      var withEvidence := touched + {options.evidencePath};
      PutAtAgrees(files, verified, options.patchPath, Some(PatchFile(verified, options, patch)), withEvidence);
      assert touched + {options.patchPath, options.evidencePath} == withEvidence + {options.patchPath};
  }

  lemma RestoredExactly(files: Files, after: Files, touched: set<string>)
    ensures Mixed(files, after, touched) == files <==> AgreeOutside(after, files, touched)
  {
    forall path
      ensures FileAt(Mixed(files, after, touched), path) == FileAt(if path in touched then files else after, path)
    {
      MixedAt(files, after, touched, path);
    }
    if AgreeOutside(after, files, touched) {
      SameFiles(Mixed(files, after, touched), files);
    }
  }

  lemma PutAtAgrees(files: Files, after: Files, path: string, file: Option<File>, touched: set<string>)
    ensures AgreeOutside(PutAt(after, path, file), files, touched)
       <==> AgreeOutside(after, files, touched + {path}) && (path in touched || file == FileAt(files, path))
  {
    forall p
      ensures FileAt(PutAt(after, path, file), p) == if p == path then file else FileAt(after, p)
    {
    }
  }

  /** A run that fails after the patch was written leaves the patch behind, unless it was there all along. */
  lemma PatchStaysBehind(files: Files, options: Options, side: SideEffects, patch: string, touched: set<string>,
                         torn: Option<File>)
    requires options.patchPath !in files && options.patchPath !in touched && options.patchPath != options.evidencePath
    ensures var after := Mixed(files, AtFailure(files, options, side, patch, WritingEvidence, torn), touched);
            options.patchPath in after && after[options.patchPath].content == patch && after != files
  {
  }

  // ---- what an applied bundle contains

  lemma {:induction false} LaterNewFilesWin(files: Files, newFiles: seq<(string, string)>, i: nat)
    requires i < |newFiles| && forall j :: i < j < |newFiles| ==> newFiles[j].0 != newFiles[i].0
    ensures newFiles[i].0 in WithNewFiles(files, newFiles)
    ensures WithNewFiles(files, newFiles)[newFiles[i].0].content == newFiles[i].1
  {
    var n := |newFiles| - 1;
    if i < n {
      LaterNewFilesWin(files, newFiles[..n], i);
    }
  }

  lemma {:induction false} TransformsKeepOthers(files: Files, transforms: seq<(string, Replacements)>, path: string)
    requires WithTransforms(files, transforms).Some? && path !in TransformPaths(transforms)
    ensures FileAt(WithTransforms(files, transforms).value, path) == FileAt(files, path)
  {
    if transforms != [] {
      var n := |transforms| - 1;
      assert transforms[n].0 in TransformPaths(transforms);
      forall t | t in transforms[..n]
        ensures t.0 in TransformPaths(transforms)
      {
      }
      TransformsKeepOthers(files, transforms[..n], path);
    }
  }

  /** In an applied bundle each transformed file is its text before, with every anchor replaced in turn. */
  lemma {:induction false} TransformsApply(files: Files, transforms: seq<(string, Replacements)>, i: nat)
    requires WithTransforms(files, transforms).Some? && i < |transforms|
    requires forall j, k :: 0 <= j < k < |transforms| ==> transforms[j].0 != transforms[k].0
    ensures var path := transforms[i].0;
            var after := WithTransforms(files, transforms).value;
            && path in files && path in after
            && Transformed(files[path].content, transforms[i].1) == Some(after[path].content)
            && after[path].executable == files[path].executable
  {
    var n := |transforms| - 1;
    var path := transforms[i].0;
    if i < n {
      TransformsApply(files, transforms[..n], i);
    } else {
      forall t | t in transforms[..n]
        ensures t.0 != path
      {
        var j :| 0 <= j < n && transforms[..n][j] == t;
        assert transforms[j].0 != transforms[n].0;
      }
      TransformsKeepOthers(files, transforms[..n], path);
    }
  }
}
