/** The RAR decompressor: recognising an archive by name or MIME type, listing its entries,
    and extracting them through the library's header loop. The RAR library itself is not
    part of this model: the headers it yields, and whether each of its calls fails, are the
    input. */
module UnrarAdapter {
  import opened Errors
  import opened Paths
  import RelPaths
  import HookArgs
  import opened Extraction

  /** `Unrar { re }`: an optional pattern for archive file names, given as the predicate its
      `is_match` decides. `new` and `build` both just wrap it. */
  datatype Unrar = Unrar(re: Option<string -> bool>)

  /** `Unrar::default()`: no pattern of its own, so the built-in one applies. */
  const DefaultUnrar := Unrar(None)

  const RarMimetype := "application/vnd.rar"

  /** One header as the library reports it. `actionFailure` is the error of the call the
      loop makes on this header (`extract_to` or `skip`), if that call fails. */
  datatype RarHeader = RarHeader(filename: string, isDirectory: bool, isFile: bool, actionFailure: Option<string>)

  /** An archive the library opened, with its headers in order, the last one possibly a read
      error; or the error of opening it. */
  type RarArchive = Decoded<seq<Decoded<RarHeader>>>

  // ---------------------------------------------------------------------------------------
  // Recognising archives

  /** `test_mimetype`. */
  predicate TestMimetype(u: Unrar, mimetype: string) {
    mimetype == RarMimetype
  }

  /** `test_mimetype` accepts exactly the rar mimetype, whatever pattern the adapter was
      built with. */
  lemma TestMimetypeExact(u: Unrar, v: Unrar, mimetype: string)
    ensures TestMimetype(u, mimetype) <==> mimetype == "application/vnd.rar"
    ensures TestMimetype(u, mimetype) == TestMimetype(v, mimetype)
  {
  }

  predicate IsR(c: char) {
    c == 'r' || c == 'R'
  }

  /** The built-in pattern `(?i)\.rar$`: the name ends in `.rar`, in any mix of cases. */
  predicate RarSuffix(f: string) {
    |f| >= 4 && f[|f| - 4] == '.' && IsR(f[|f| - 3]) && (f[|f| - 2] == 'a' || f[|f| - 2] == 'A') && IsR(f[|f| - 1])
  }

  /** `test`: the archive's file name, if it has one, matches the pattern (the built-in one
      unless the `Unrar` carries its own). */
  predicate Test(u: Unrar, p: Platform, archive: string) {
    match FileName(p, archive)
    case None => false
    case Some(f) => if u.re.Some? then u.re.value(f) else RarSuffix(f)
  }

  /** `test` looks at the file name only: an archive name in any directory is recognised as
      it is on its own. */
  lemma TestIgnoresDirectory(u: Unrar, p: Platform, dir: string, name: string)
    requires IsPlainName(p, name) && !HasDrivePrefix(p, name)
    ensures Test(u, p, Push(p, dir, name)) == Test(u, p, name)
    ensures Test(u, p, name) == if u.re.Some? then u.re.value(name) else RarSuffix(name)
  {
    FileNamePushPlain(p, dir, name);
  }

  lemma FileNamePushPlain(p: Platform, dir: string, name: string)
    requires IsPlainName(p, name) && !HasDrivePrefix(p, name)
    ensures FileName(p, Push(p, dir, name)) == Some(name) && FileName(p, name) == Some(name)
  {
    PlainComponents(p, name);
    PushPlainComponents(p, dir, name);
  }

  /** A path that ends in `..` or is a bare root has no file name and is never recognised. */
  lemma TestNeedsFileName(u: Unrar, p: Platform, archive: string)
    requires |Components(p, archive)| == 0 || !Components(p, archive)[|Components(p, archive)| - 1].Normal?
    ensures !Test(u, p, archive)
  {
  }

  /** Examples of the built-in pattern. */
  lemma RarSuffixVectors()
    ensures RarSuffix("backup.rar") && RarSuffix("BACKUP.RAR") && RarSuffix("x.rAr") && RarSuffix(".rar")
    ensures !RarSuffix("backup.rar.gz") && !RarSuffix("rar") && !RarSuffix("backup_rar") && !RarSuffix("a.tar")
  {
  }

  // ---------------------------------------------------------------------------------------
  // Listing

  /** `enclosed_name`: the header's file name, with `\` written as `/` on Windows, and a `/`
      appended to a directory's name that does not end in one. */
  function EnclosedName(p: Platform, h: RarHeader): (s: string)
    ensures var t := if p == Windows then Slashed(h.filename) else h.filename;
      && (h.isDirectory ==> |s| > 0 && s[|s| - 1] == '/')
      && t <= s && |s| <= |t| + 1
      && (!h.isDirectory || (|t| > 0 && t[|t| - 1] == '/') ==> s == t)
    ensures p == Windows ==> forall i :: 0 <= i < |s| ==> s[i] != '\\'
  {
    var t := if p == Windows then Slashed(h.filename) else h.filename;
    if h.isDirectory && !(|t| > 0 && t[|t| - 1] == '/') then t + "/" else t
  }

  /** Listing a header whose name is already a listed name changes nothing. */
  lemma EnclosedNameIdempotent(p: Platform, h: RarHeader)
    ensures EnclosedName(p, h.(filename := EnclosedName(p, h))) == EnclosedName(p, h)
  {
  }

  /** The listed name is the same path as the header's own file name (unless that name is
      empty or a bare drive, where a trailing `/` would add a root). */
  lemma EnclosedNameSamePath(p: Platform, h: RarHeader)
    requires h.filename != [] && !(HasDrivePrefix(p, h.filename) && |h.filename| == 2)
    ensures SamePath(p, EnclosedName(p, h), h.filename)
  {
    var t := if p == Windows then Slashed(h.filename) else h.filename;
    if p == Windows {
      ComponentsSlashed(h.filename);
      assert HasDrivePrefix(p, t) == HasDrivePrefix(p, h.filename);
    }
    if EnclosedName(p, h) != t {
      TrailingSeparator(p, t, '/');
    }
  }

  /** Guessing the kind from a listed name gives back exactly which entries are directories
      (a file whose own name ends in a separator is taken for one). */
  lemma EnclosedNameKind(p: Platform, h: RarHeader)
    ensures RelPaths.GuessKind(p, EnclosedName(p, h))
      == if h.isDirectory || RelPaths.EndsWithSeparator(p, h.filename) then RelPaths.Directory else RelPaths.File
  {
    var t := if p == Windows then Slashed(h.filename) else h.filename;
    var s := EnclosedName(p, h);
    if |h.filename| > 0 {
      assert t[|t| - 1] == '/' <==> RelPaths.EndsWithSeparator(p, h.filename);
      if !h.isDirectory {
        assert s == t;
      }
    }
  }

  /** The headers' listed names, or the first header that failed to read. */
  function EnclosedNames(p: Platform, hs: seq<Decoded<RarHeader>>): (r: Outcome<seq<string>>)
    ensures r.Ok? <==> forall i :: 0 <= i < |hs| ==> hs[i].Decoded?
    ensures r.Ok? ==> |r.value| == |hs| && forall i :: 0 <= i < |hs| ==> r.value[i] == EnclosedName(p, hs[i].item)
    ensures r.Err? || r.Ok?
    ensures r.Err? ==> exists i :: (0 <= i < |hs| && hs[i].Corrupt? && r.error == Error(hs[i].message) &&
                                 forall j :: 0 <= j < i ==> hs[j].Decoded?)
    decreases |hs|
  {
    if hs == [] then Ok([])
    else
      match hs[0]
      case Corrupt(m) => Err(Error(m))
      case Decoded(h) =>
        var rest := EnclosedNames(p, hs[1..]);
        if rest.Ok? then Ok([EnclosedName(p, h)] + rest.value) else rest
  }

  /** `list`: every header's listed name, in order, under the id `rar`; a failure to open the
      archive or to read a header is the call's error. */
  function List(p: Platform, archive: RarArchive): (r: Outcome<Listing>)
    ensures archive.Corrupt? ==> r == Err(Error(archive.message))
    ensures r.Ok? <==> archive.Decoded? && forall i :: 0 <= i < |archive.item| ==> archive.item[i].Decoded?
    ensures r.Ok? ==>
      r.value.id == "rar" && |r.value.entries| == |archive.item| &&
      forall i :: 0 <= i < |archive.item| ==> r.value.entries[i] == EnclosedName(p, archive.item[i].item)
  {
    match archive
    case Corrupt(m) => Err(Error(m))
    case Decoded(hs) =>
      match EnclosedNames(p, hs)
      case Ok(names) => Ok(Listing("rar", names))
      case Err(e) => Err(e)
      case Abort(m) => Abort(m)
  }

  // ---------------------------------------------------------------------------------------
  // Extraction, one header at a time

  /** The library call that ends a header's turn, `extract_to` or `skip`: its failure ends
      the loop with the library's error. */
  function ActionStatus(h: RarHeader): Outcome<()> {
    if h.actionFailure.Some? then Err(Error(h.actionFailure.value)) else Ok(())
  }

  /** One turn of `decompress`'s loop: directories and files that pass the checks and the
      filter are extracted at their mapped path, which is pushed onto `files`; every other
      header is skipped. */
  function RarStep(p: Platform, to: string, outputDir: string, opts: ExtractOpts, x: Decoded<RarHeader>): (st: Step)
    requires IsAbsolute(p, outputDir)
    ensures st.files == Outputs(st.effects)
    ensures st.files != [] ==> x.Decoded? && (x.item.isDirectory || x.item.isFile)
    ensures |st.effects| <= 1 && forall k :: 0 <= k < |st.effects| ==> st.effects[k].ExtractTo?
  {
    match x
    case Corrupt(m) => Step([], [], Err(Error(m)))
    case Decoded(h) =>
      if !(h.isDirectory || h.isFile) then Step([], [], ActionStatus(h))
      else
        match Descriptor(p, to, outputDir, h.filename, h.isDirectory)
        case Err(e) => Step([], [], Err(e))
        case Abort(m) => Step([], [], Abort(m))
        case Ok(d) =>
          if d.Some? && opts.filter(d.value) then
            var out := opts.mapTo(d.value);
            assert [ExtractTo(out)][1..] == [];
            Step([ExtractTo(out)], [out], ActionStatus(h))
          else Step([], [], ActionStatus(h))
  }

  /** The steps of all headers, in order. */
  function RarSteps(p: Platform, to: string, outputDir: string, opts: ExtractOpts, xs: seq<Decoded<RarHeader>>)
    : (steps: seq<Step>)
    requires IsAbsolute(p, outputDir)
    ensures |steps| == |xs|
    decreases |xs|
  {
    if xs == [] then [] else [RarStep(p, to, outputDir, opts, xs[0])] + RarSteps(p, to, outputDir, opts, xs[1..])
  }

  /** The `i`-th step is the step of the `i`-th header. */
  lemma {:induction false} RarStepsAt(p: Platform, to: string, outputDir: string, opts: ExtractOpts,
                                      xs: seq<Decoded<RarHeader>>, i: nat)
    requires IsAbsolute(p, outputDir) && i < |xs|
    ensures RarSteps(p, to, outputDir, opts, xs)[i] == RarStep(p, to, outputDir, opts, xs[i])
    decreases i
  {
    if i > 0 {
      RarStepsAt(p, to, outputDir, opts, xs[1..], i - 1);
    }
  }

  /** The whole loop, after the output directory has been created when missing. */
  function RarRun(p: Platform, to: string, outputDir: string, toExists: bool, opts: ExtractOpts,
                  xs: seq<Decoded<RarHeader>>): Progress
    requires IsAbsolute(p, outputDir)
  {
    Run(Start(to, toExists), RarSteps(p, to, outputDir, opts, xs))
  }

  /** The result of a finished loop, as a `Decompression` with the id `rar`. */
  function Decompressed(r: Outcome<seq<string>>): Outcome<Decompression> {
    match r
    case Ok(files) => Ok(Decompression("rar", files))
    case Err(e) => Err(e)
    case Abort(m) => Abort(m)
  }

  /** A header that fails to read ends the call with the library's error. */
  lemma RarStepCorrupt(p: Platform, to: string, outputDir: string, opts: ExtractOpts, x: Decoded<RarHeader>)
    requires IsAbsolute(p, outputDir) && x.Corrupt?
    ensures RarStep(p, to, outputDir, opts, x) == Step([], [], Err(Error(x.message)))
  {
  }

  /** How a step comes out once the descriptor is known. */
  lemma RarStepDescribed(p: Platform, to: string, outputDir: string, opts: ExtractOpts, h: RarHeader,
                         d: Outcome<Option<HookArgs.MapArgs>>)
    requires IsAbsolute(p, outputDir) && (h.isDirectory || h.isFile)
    requires d == Descriptor(p, to, outputDir, h.filename, h.isDirectory)
    ensures d.Err? ==> RarStep(p, to, outputDir, opts, Decoded(h)) == Step([], [], Err(d.error))
    ensures d.Abort? ==> RarStep(p, to, outputDir, opts, Decoded(h)) == Step([], [], Abort(d.reason))
    ensures d.Ok? && (d.value.None? || !opts.filter(d.value.value)) ==>
      RarStep(p, to, outputDir, opts, Decoded(h)) == Step([], [], ActionStatus(h))
    ensures d.Ok? && d.value.Some? && opts.filter(d.value.value) ==>
      RarStep(p, to, outputDir, opts, Decoded(h))
        == Step([ExtractTo(opts.mapTo(d.value.value))], [opts.mapTo(d.value.value)], ActionStatus(h))
  {
  }

  /** On Windows a header named `.` or `./` extracted into a bare drive such as `C:` names
      `to` itself (`C:.` is `C:`): it is skipped with the library's `skip` status. */
  lemma RarStepDriveDot(d: char, c: char, outputDir: string, opts: ExtractOpts, h: RarHeader)
    requires IsDriveLetter(d) && IsSeparator(Windows, c) && IsAbsolute(Windows, outputDir)
    requires h.filename == "." || h.filename == ['.', c]
    ensures RarStep(Windows, [d, ':'], outputDir, opts, Decoded(h)) == Step([], [], ActionStatus(h))
  {
    if h.isDirectory || h.isFile {
      var described := Descriptor(Windows, [d, ':'], outputDir, h.filename, h.isDirectory);
      assert described == Ok(None) by {
        DescriptorDriveDot(d, c, outputDir, h.isDirectory);
      }
      RarStepDescribed(Windows, [d, ':'], outputDir, opts, h, described);
    }
  }

  /** The body of `decompress`'s loop for one header. */
  method ExtractHeader(p: Platform, to: string, outputDir: string, opts: ExtractOpts, x: Decoded<RarHeader>)
    returns (added: seq<Effect>, recorded: seq<string>, status: Outcome<()>)
    requires IsAbsolute(p, outputDir)
    ensures Step(added, recorded, status) == RarStep(p, to, outputDir, opts, x)
  {
    added, recorded := [], [];
    if x.Corrupt? {
      RarStepCorrupt(p, to, outputDir, opts, x);
      status := Err(Error(x.message));
      return;
    }
    var h := x.item;
    if !(h.isDirectory || h.isFile) {
      RarStepSkipsOthers(p, to, outputDir, opts, h);
      status := ActionStatus(h);
      return;
    }
    var d := Describe(p, to, outputDir, h.filename, h.isDirectory);
    RarStepDescribed(p, to, outputDir, opts, h, d);
    match d
    case Err(e) => status := Err(e);
    case Abort(m) => status := Abort(m);
    case Ok(None) => status := ActionStatus(h);
    case Ok(Some(args)) =>
      if opts.filter(args) {
        var out := opts.mapTo(args);
        recorded := recorded + [out];
        added := added + [ExtractTo(out)];
      }
      status := ActionStatus(h);
  }

  /** `decompress`, with the archive as the library opens it, whether `to` already exists and
      `to`'s absolutized form as inputs; it returns the effects it performed and its result.
      A non-zero `strip` panics before anything happens. */
  method Decompress(p: Platform, to: string, outputDir: string, toExists: bool, archive: RarArchive, opts: ExtractOpts)
    returns (effects: seq<Effect>, result: Outcome<Decompression>)
    requires IsAbsolute(p, outputDir)
    ensures opts.strip != 0 ==> effects == [] && result == Abort(StripNotSupported)
    ensures opts.strip == 0 && archive.Corrupt? ==>
      effects == Start(to, toExists).effects && result == Err(Error(archive.message))
    ensures opts.strip == 0 && archive.Decoded? ==>
      effects == RarRun(p, to, outputDir, toExists, opts, archive.item).effects
      && result == Decompressed(Finish(RarRun(p, to, outputDir, toExists, opts, archive.item)))
  {
    effects := [];
    if opts.strip != 0 {
      return [], Abort(StripNotSupported);
    }
    if !toExists {
      effects := effects + [CreateDirAll(to)];
    }
    if archive.Corrupt? {
      return effects, Err(Error(archive.message));
    }
    var headers := archive.item;
    ghost var steps := RarSteps(p, to, outputDir, opts, headers);
    ghost var start := Start(to, toExists);
    var files: seq<string> := [];
    var status: Outcome<()> := Ok(());
    var i := 0;
    while i < |headers| && status.Ok?
      invariant i <= |headers|
      invariant Run(start, steps[..i]) == Progress(effects, files, status)
    {
      RunAppend(start, steps, i, effects, files, status);
      RarStepsAt(p, to, outputDir, opts, headers, i);
      var added, recorded;
      added, recorded, status := ExtractHeader(p, to, outputDir, opts, headers[i]);
      effects := effects + added;
      files := files + recorded;
      i := i + 1;
    }
    if i == |headers| {
      assert steps[..i] == steps;
    } else {
      RunSticky(start, steps, i);
    }
    result := Decompressed(Finish(Progress(effects, files, status)));
  }

  // ---------------------------------------------------------------------------------------
  // What decompress promises

  /** Headers that are neither directories nor files are skipped without a descriptor,
      without calling the filter or the map, and without being recorded. */
  lemma RarStepSkipsOthers(p: Platform, to: string, outputDir: string, opts: ExtractOpts, h: RarHeader)
    requires IsAbsolute(p, outputDir) && !h.isDirectory && !h.isFile
    ensures RarStep(p, to, outputDir, opts, Decoded(h)) == Step([], [], ActionStatus(h))
  {
  }

  /** Every extraction happens at the mapped path of a valid descriptor for the header,
      whose path is the output directory followed by exactly the header's parts; unlike
      the tar loop, directories are extracted and recorded too. */
  lemma RarStepTarget(p: Platform, to: string, outputDir: string, opts: ExtractOpts, x: Decoded<RarHeader>)
    requires IsAbsolute(p, outputDir)
    requires RarStep(p, to, outputDir, opts, x).effects != []
    ensures x.Decoded? && (x.item.isDirectory || x.item.isFile)
    ensures var d := Descriptor(p, to, outputDir, x.item.filename, x.item.isDirectory);
      && d.Ok? && d.value.Some? && opts.filter(d.value.value)
      && RarStep(p, to, outputDir, opts, x).effects == [ExtractTo(opts.mapTo(d.value.value))]
      && RarStep(p, to, outputDir, opts, x).files == [opts.mapTo(d.value.value)]
      && HookArgs.Valid(p, d.value.value)
      && (RelPaths.IsDirectory(d.value.value.relPath) <==> x.item.isDirectory)
      && Components(p, d.value.value.path) == Components(p, outputDir) + Normals(d.value.value.relPath.parts)
  {
    var h := x.item;
    var d := Descriptor(p, to, outputDir, h.filename, h.isDirectory);
    RarStepDescribed(p, to, outputDir, opts, h, d);
    DescriptorContained(p, to, outputDir, h.filename, h.isDirectory);
  }

  /** With the default map, a header's extraction lands under the output directory. */
  lemma RarStepDefaultMapContained(p: Platform, to: string, outputDir: string, opts: ExtractOpts, x: Decoded<RarHeader>, k: nat)
    requires IsAbsolute(p, outputDir)
    requires forall a :: opts.mapTo(a) == HookArgs.Path(a)
    requires k < |RarStep(p, to, outputDir, opts, x).effects|
    ensures Components(p, outputDir) <= Components(p, RarStep(p, to, outputDir, opts, x).effects[k].path)
  {
    RarStepTarget(p, to, outputDir, opts, x);
  }

  /** With the default map, the whole extraction writes nothing outside the output
      directory: every effect but the creation of `to` is at a path under it. */
  lemma RarRunContained(p: Platform, to: string, outputDir: string, toExists: bool, opts: ExtractOpts,
                        xs: seq<Decoded<RarHeader>>, e: Effect)
    requires IsAbsolute(p, outputDir)
    requires forall a :: opts.mapTo(a) == HookArgs.Path(a)
    requires e in RarRun(p, to, outputDir, toExists, opts, xs).effects
    ensures e == CreateDirAll(to) || Components(p, outputDir) <= Components(p, e.path)
  {
    var start := Start(to, toExists);
    var steps := RarSteps(p, to, outputDir, opts, xs);
    RunEffectsFrom(start, steps, e);
    if e !in start.effects {
      var i :| 0 <= i < |steps| && e in steps[i].effects;
      RarStepsAt(p, to, outputDir, opts, xs, i);
      var k :| 0 <= k < |steps[i].effects| && steps[i].effects[k] == e;
      RarStepDefaultMapContained(p, to, outputDir, opts, xs[i], k);
    }
  }

  /** The loop's steps are the headers' steps. */
  lemma RarStepsAll(p: Platform, to: string, outputDir: string, opts: ExtractOpts, xs: seq<Decoded<RarHeader>>)
    requires IsAbsolute(p, outputDir)
    ensures forall i :: 0 <= i < |xs| ==>
      RarSteps(p, to, outputDir, opts, xs)[i] == RarStep(p, to, outputDir, opts, xs[i])
  {
    forall i | 0 <= i < |xs| {
      RarStepsAt(p, to, outputDir, opts, xs, i);
    }
  }

  /** `files` lists exactly the paths extracted to, in order, and a missing output directory
      is created before anything else. */
  lemma RarRunOutputs(p: Platform, to: string, outputDir: string, toExists: bool, opts: ExtractOpts,
                      xs: seq<Decoded<RarHeader>>)
    requires IsAbsolute(p, outputDir)
    ensures RarRun(p, to, outputDir, toExists, opts, xs).files == Outputs(RarRun(p, to, outputDir, toExists, opts, xs).effects)
    ensures !toExists ==> [CreateDirAll(to)] <= RarRun(p, to, outputDir, toExists, opts, xs).effects
  {
    RarStepsAll(p, to, outputDir, opts, xs);
    RunOutputs(Start(to, toExists), RarSteps(p, to, outputDir, opts, xs));
    RunKeepsStart(Start(to, toExists), RarSteps(p, to, outputDir, opts, xs));
  }

  /** The call succeeds exactly when no header's step ends it; so success means every header
      could be read and every library call on a header succeeded. */
  lemma RarRunOk(p: Platform, to: string, outputDir: string, toExists: bool, opts: ExtractOpts,
                 xs: seq<Decoded<RarHeader>>)
    requires IsAbsolute(p, outputDir)
    ensures Finish(RarRun(p, to, outputDir, toExists, opts, xs)).Ok? <==>
      forall i :: 0 <= i < |xs| ==> RarStep(p, to, outputDir, opts, xs[i]).status.Ok?
    ensures Finish(RarRun(p, to, outputDir, toExists, opts, xs)).Ok? ==>
      forall i :: 0 <= i < |xs| ==> xs[i].Decoded? && xs[i].item.actionFailure.None?
  {
    RarStepsAll(p, to, outputDir, opts, xs);
    RunOk(Start(to, toExists), RarSteps(p, to, outputDir, opts, xs));
    forall i | 0 <= i < |xs| && RarStep(p, to, outputDir, opts, xs[i]).status.Ok?
      ensures xs[i].Decoded? && xs[i].item.actionFailure.None?
    {
      var x := xs[i];
      if x.Decoded? && (x.item.isDirectory || x.item.isFile) {
        RarStepDescribed(p, to, outputDir, opts, x.item, Descriptor(p, to, outputDir, x.item.filename, x.item.isDirectory));
      }
    }
  }
}
