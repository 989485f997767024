/** What the tar and rar extraction loops share: the options, the record of filesystem
    effects they produce, the per-entry descriptor handed to the callbacks, and the results. */
module Extraction {
  import opened Errors
  import opened Paths
  import RelPaths
  import HookArgs

  /** One filesystem action, in the order the loop performs it. */
  datatype Effect =
    | CreateDirAll(path: string)      // the output directory, created when it is missing
    | CreateParentDirs(path: string)  // the parent directories of `path`, created when missing
    | WriteFile(path: string)         // a regular entry's bytes copied to a new file at `path`
    | Unpack(path: string)            // a tar symlink materialised at `path`
    | ExtractTo(path: string)         // a rar entry extracted by the library to `path`

  /** `ExtractOpts`: leading components to strip, the entry filter and the path map
      (`map`, named `mapTo` here because `map` is a Dafny keyword).
      `detect_content` only steers format selection, which is not part of this model. */
  datatype ExtractOpts = ExtractOpts(
    strip: nat,
    filter: HookArgs.MapArgs -> bool,
    mapTo: HookArgs.MapArgs -> string)

  /** What one entry adds to the loop: effects, recorded paths, and whether to go on. */
  datatype Step = Step(effects: seq<Effect>, files: seq<string>, status: Outcome<()>)

  /** The loop's state: effects so far, the `files` vector, and how the call stands. */
  datatype Progress = Progress(effects: seq<Effect>, files: seq<string>, status: Outcome<()>)

  /** `Decompression { id, files }`. */
  datatype Decompression = Decompression(id: string, files: seq<string>)

  /** `Listing { id, entries }`. */
  datatype Listing = Listing(id: string, entries: seq<string>)

  /** The start of a loop: the output directory is created first when it is missing. */
  function Start(to: string, toExists: bool): Progress {
    Progress(if toExists then [] else [CreateDirAll(to)], [], Ok(()))
  }

  /** One more entry; once the call has failed nothing more happens. */
  function Then(pr: Progress, st: Step): Progress {
    if pr.status.Ok? then Progress(pr.effects + st.effects, pr.files + st.files, st.status) else pr
  }

  /** The loop over all entries' steps, from `start`. */
  function Run(start: Progress, steps: seq<Step>): Progress
    decreases |steps|
  {
    if steps == [] then start else Then(Run(start, steps[..|steps| - 1]), steps[|steps| - 1])
  }

  /** The value the call returns for a finished loop. */
  function Finish(pr: Progress): Outcome<seq<string>> {
    match pr.status
    case Ok(_) => Ok(pr.files)
    case Err(e) => Err(e)
    case Abort(m) => Abort(m)
  }

  /** `if let Some(parent) = out.parent()`: the parents are prepared only when there is one. */
  function Prepare(p: Platform, out: string): seq<Effect> {
    if HasParent(p, out) then [CreateParentDirs(out)] else []
  }

  /** The paths entries are written to (regular files and rar extractions), in order. */
  function Outputs(effects: seq<Effect>): seq<string> {
    if effects == [] then []
    else
      var here := if effects[0].WriteFile? || effects[0].ExtractTo? then [effects[0].path] else [];
      here + Outputs(effects[1..])
  }

  /** Every file or symlink that has a parent is preceded by the creation of its parents. */
  predicate ParentsFirst(p: Platform, effects: seq<Effect>) {
    forall i :: 0 <= i < |effects| && (effects[i].WriteFile? || effects[i].Unpack?) && HasParent(p, effects[i].path) ==>
      i > 0 && effects[i - 1] == CreateParentDirs(effects[i].path)
  }

  /** What both loops do before the callbacks: join the entry path onto `to` and skip the
      entry when that names `to` itself; build the `RelPath` (a directory for directory
      entries), whose failure ends the call; join the path onto the absolute output
      directory; and wrap the three in a descriptor. */
  function Descriptor(p: Platform, to: string, outputDir: string, path: string, isDirectory: bool)
    : Outcome<Option<HookArgs.MapArgs>>
    requires IsAbsolute(p, outputDir)
  {
    if SamePath(p, to, Push(p, to, path)) then Ok(None)
    else
      var kind := if isDirectory then RelPaths.Directory else RelPaths.File;
      match RelPaths.New(p, kind, path)
      case Err(e) => Err(e)
      case Abort(m) => Abort(m)
      case Ok(r) =>
        RelPathJoinAbsolute(p, outputDir, kind, path);
        Ok(Some(HookArgs.New(p, r, Push(p, outputDir, path), outputDir)))
  }

  /** The steps `Descriptor` describes, as both loops perform them inline. */
  method Describe(p: Platform, to: string, outputDir: string, path: string, isDirectory: bool)
    returns (d: Outcome<Option<HookArgs.MapArgs>>)
    requires IsAbsolute(p, outputDir)
    ensures d == Descriptor(p, to, outputDir, path, isDirectory)
  {
    var outpath := Push(p, to, path);
    if SamePath(p, to, outpath) {
      return Ok(None);
    }
    var outputPath := Push(p, outputDir, path);
    var relPath := if isDirectory then RelPaths.NewDirectory(p, path) else RelPaths.NewFile(p, path);
    match relPath
    case Err(e) => d := Err(e);
    case Abort(m) => d := Abort(m);
    case Ok(r) =>
      RelPathJoinAbsolute(p, outputDir, r.kind, path);
      d := Ok(Some(HookArgs.New(p, r, outputPath, outputDir)));
  }

  // ---------------------------------------------------------------------------------------
  // Lemmas

  /** A path that `RelPath::new` accepts, joined onto an absolute directory, is absolute:
      `MapArgs::new`'s first assertion cannot fail in the loops. */
  lemma RelPathJoinAbsolute(p: Platform, outputDir: string, kind: RelPaths.RelPathKind, path: string)
    requires IsAbsolute(p, outputDir) && RelPaths.New(p, kind, path).Ok?
    ensures IsAbsolute(p, Push(p, outputDir, path))
  {
    RelPaths.NewValid(p, kind, path);
    PushKeepsAbsolute(p, outputDir, path);
  }

  /** Every descriptor the callbacks receive is valid, and its path is the output directory
      followed by exactly the entry's parts: no entry name (with `..`, a root, a drive or
      mixed separators) reaches a callback with a path outside the output directory. */
  lemma DescriptorContained(p: Platform, to: string, outputDir: string, path: string, isDirectory: bool)
    requires IsAbsolute(p, outputDir)
    requires Descriptor(p, to, outputDir, path, isDirectory).Ok?
    requires Descriptor(p, to, outputDir, path, isDirectory).value.Some?
    ensures var a := Descriptor(p, to, outputDir, path, isDirectory).value.value;
      && HookArgs.Valid(p, a) && a.outputDir == outputDir
      && RelPaths.Valid(p, a.relPath) && (RelPaths.IsDirectory(a.relPath) <==> isDirectory)
      && Components(p, a.path) == Components(p, outputDir) + Normals(a.relPath.parts)
      && Components(p, path) == Normals(a.relPath.parts)
  {
    var kind := if isDirectory then RelPaths.Directory else RelPaths.File;
    RelPaths.NewValid(p, kind, path);
    PushComponents(p, outputDir, path);
  }

  /** A path with no components (empty, `.`, a lone trailing separator) joined onto `to`
      names `to` again, so the entry is skipped before any `RelPath` or callback. */
  lemma DescriptorSkipsEmpty(p: Platform, to: string, outputDir: string, path: string, isDirectory: bool)
    requires IsAbsolute(p, outputDir) && Components(p, path) == []
    ensures Descriptor(p, to, outputDir, path, isDirectory) == Ok(None)
  {
    PushComponents(p, to, path);
  }

  /** On Windows an entry named `c:\out` extracted into `C:\out` names `to` itself, with
      the drive letter in another case, and is skipped. */
  lemma DescriptorDriveCase()
    ensures Descriptor(Windows, "C:\\out", "C:\\out", "c:\\out", false) == Ok(None)
  {
    var to, path := "C:\\out", "c:\\out";
    assert path[..2] == "c:" && path[2..] == "\\out";
    assert IsAbsolute(Windows, path);
    assert Push(Windows, to, path) == path;
    DriveLetterCase();
  }

  /** On Windows an entry `.` or `./` extracted into a bare drive such as `C:` names `to`
      itself (`C:.` is the same path as `C:`) and is skipped, whatever its kind. */
  lemma DescriptorDriveDot(d: char, c: char, outputDir: string, isDirectory: bool)
    requires IsDriveLetter(d) && IsSeparator(Windows, c) && IsAbsolute(Windows, outputDir)
    ensures Descriptor(Windows, [d, ':'], outputDir, ".", isDirectory) == Ok(None)
    ensures Descriptor(Windows, [d, ':'], outputDir, ['.', c], isDirectory) == Ok(None)
  {
    var drive := [d, ':'];
    assert Push(Windows, drive, ".") == [d, ':', '.'];
    assert Push(Windows, drive, ['.', c]) == [d, ':', '.', c];
    DriveCurDir(d, c, "a");
  }

  /** A single plain name that is not a drive is described at the output directory followed
      by that name, with itself as the only part. */
  lemma DescriptorOnePart(p: Platform, to: string, outputDir: string, n: string, isDirectory: bool)
    requires IsAbsolute(p, outputDir) && IsPlainName(p, n) && !HasDrivePrefix(p, n)
    ensures var kind := if isDirectory then RelPaths.Directory else RelPaths.File;
      Descriptor(p, to, outputDir, n, isDirectory)
        == Ok(Some(HookArgs.MapArgs(RelPaths.RelPath(kind, [n], n), Push(p, outputDir, n), outputDir)))
  {
    var kind := if isDirectory then RelPaths.Directory else RelPaths.File;
    assert JoinWith([n], '/') == n;
    ComponentsOfJoin(p, [n], '/');
    RelPaths.NamesOfNormals([n]);
    assert RelPaths.New(p, kind, n) == Ok(RelPaths.RelPath(kind, [n], n));
    PushComponents(p, to, n);
    assert |Keys(Components(p, Push(p, to, n)))| == |Keys(Components(p, to))| + 1;
  }

  /** An action at `out` preceded by `Prepare`: parents come first, and only a written
      file or extraction is an output. */
  lemma PrepareThen(p: Platform, out: string, e: Effect)
    requires e.path == out && (e.WriteFile? || e.Unpack? || e.ExtractTo?)
    ensures ParentsFirst(p, Prepare(p, out) + [e])
    ensures Outputs(Prepare(p, out) + [e]) == if e.Unpack? then [] else [out]
  {
    var s := Prepare(p, out) + [e];
    assert s[|s| - 1] == e;
    if HasParent(p, out) {
      assert s == [CreateParentDirs(out), e];
      assert s[1..] == [e];
    } else {
      assert s == [e];
    }
    assert Outputs([e]) == (if e.Unpack? then [] else [out]) by {
      assert [e][1..] == [];
    }
  }

  lemma {:induction false} OutputsConcat(a: seq<Effect>, b: seq<Effect>)
    ensures Outputs(a + b) == Outputs(a) + Outputs(b)
    decreases |a|
  {
    if a == [] {
      assert a + b == b;
    } else {
      assert (a + b)[0] == a[0];
      assert (a + b)[1..] == a[1..] + b;
      OutputsConcat(a[1..], b);
      var here := if a[0].WriteFile? || a[0].ExtractTo? then [a[0].path] else [];
      assert Outputs(a + b) == here + (Outputs(a[1..]) + Outputs(b));
      assert here + (Outputs(a[1..]) + Outputs(b)) == (here + Outputs(a[1..])) + Outputs(b);
    }
  }

  lemma ParentsFirstConcat(p: Platform, a: seq<Effect>, b: seq<Effect>)
    requires ParentsFirst(p, a) && ParentsFirst(p, b)
    ensures ParentsFirst(p, a + b)
  {
    var s := a + b;
    forall i | 0 <= i < |s| && (s[i].WriteFile? || s[i].Unpack?) && HasParent(p, s[i].path)
      ensures i > 0 && s[i - 1] == CreateParentDirs(s[i].path)
    {
      if i < |a| {
        assert s[i] == a[i] && s[i - 1] == a[i - 1];
      } else {
        assert s[i] == b[i - |a|];
        assert s[i - 1] == b[i - |a| - 1];
      }
    }
  }

  /** One more iteration of the loop. */
  lemma RunNext(start: Progress, steps: seq<Step>, i: nat)
    requires i < |steps|
    ensures Run(start, steps[..i + 1]) == Then(Run(start, steps[..i]), steps[i])
  {
    assert steps[..i + 1][..i] == steps[..i];
  }

  /** One more iteration of a loop that was still going: its effects and paths are appended
      and its status becomes the loop's. */
  lemma RunAppend(start: Progress, steps: seq<Step>, i: nat, effects: seq<Effect>, files: seq<string>, status: Outcome<()>)
    requires i < |steps| && Run(start, steps[..i]) == Progress(effects, files, status) && status.Ok?
    ensures Run(start, steps[..i + 1])
      == Progress(effects + steps[i].effects, files + steps[i].files, steps[i].status)
  {
    RunNext(start, steps, i);
  }

  /** A failure ends the loop: the later entries change nothing. */
  lemma {:induction false} RunSticky(start: Progress, steps: seq<Step>, k: nat)
    requires k <= |steps| && !Run(start, steps[..k]).status.Ok?
    ensures Run(start, steps) == Run(start, steps[..k])
    decreases |steps|
  {
    if k == |steps| {
      assert steps[..k] == steps;
    } else {
      var init := steps[..|steps| - 1];
      assert init[..k] == steps[..k];
      RunSticky(start, init, k);
    }
  }

  /** The loop ends well exactly when it started well and every step went on. */
  lemma {:induction false} RunOk(start: Progress, steps: seq<Step>)
    ensures Run(start, steps).status.Ok? <==>
      start.status.Ok? && forall i :: 0 <= i < |steps| ==> steps[i].status.Ok?
    decreases |steps|
  {
    if steps != [] {
      var init := steps[..|steps| - 1];
      RunOk(start, init);
      assert forall i :: 0 <= i < |init| ==> init[i] == steps[i];
    }
  }

  /** Every effect of the loop was performed by the start or by one of the steps. */
  lemma {:induction false} RunEffectsFrom(start: Progress, steps: seq<Step>, e: Effect)
    requires e in Run(start, steps).effects
    ensures e in start.effects || exists i :: 0 <= i < |steps| && e in steps[i].effects
    decreases |steps|
  {
    if steps != [] {
      var init := steps[..|steps| - 1];
      var pr := Run(start, init);
      if e in pr.effects {
        RunEffectsFrom(start, init, e);
        if e !in start.effects {
          var i :| 0 <= i < |init| && e in init[i].effects;
          assert steps[i] == init[i];
        }
      } else {
        assert e in steps[|steps| - 1].effects;
      }
    }
  }

  /** The effects only grow: what `start` did stays at the front. */
  lemma {:induction false} RunKeepsStart(start: Progress, steps: seq<Step>)
    ensures start.effects <= Run(start, steps).effects
    decreases |steps|
  {
    if steps != [] {
      RunKeepsStart(start, steps[..|steps| - 1]);
    }
  }

  /** When every step records exactly the paths it writes, so does the whole loop. */
  lemma {:induction false} RunOutputs(start: Progress, steps: seq<Step>)
    requires start.files == Outputs(start.effects)
    requires forall i :: 0 <= i < |steps| ==> steps[i].files == Outputs(steps[i].effects)
    ensures Run(start, steps).files == Outputs(Run(start, steps).effects)
    decreases |steps|
  {
    if steps != [] {
      var pr := Run(start, steps[..|steps| - 1]);
      RunOutputs(start, steps[..|steps| - 1]);
      OutputsConcat(pr.effects, steps[|steps| - 1].effects);
    }
  }

  /** When every step prepares parents before writing, so does the whole loop. */
  lemma {:induction false} RunParentsFirst(p: Platform, start: Progress, steps: seq<Step>)
    requires ParentsFirst(p, start.effects)
    requires forall i :: 0 <= i < |steps| ==> ParentsFirst(p, steps[i].effects)
    ensures ParentsFirst(p, Run(start, steps).effects)
    decreases |steps|
  {
    if steps != [] {
      var pr := Run(start, steps[..|steps| - 1]);
      RunParentsFirst(p, start, steps[..|steps| - 1]);
      ParentsFirstConcat(p, pr.effects, steps[|steps| - 1].effects);
    }
  }
}
