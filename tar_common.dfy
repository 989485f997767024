/** The tar walker shared by the tar-based formats: `tar_list` and `tar_extract`. The tar
    reader itself is not part of this model: its entries are the input. */
module TarCommon {
  import opened Errors
  import opened Paths
  import RelPaths
  import HookArgs
  import opened Extraction

  /** `tar::EntryType`, as far as the loop tells types apart; `Other` stands for every
      remaining type flag (hard links, character and block devices, FIFOs, ...). */
  datatype EntryType = Regular | Directory | Symlink | Other(flag: char)

  /** One entry as the reader yields it: its type, and its path, whose decoding can fail. */
  datatype TarEntry = TarEntry(path: Decoded<string>, entryType: EntryType)

  /** What `entries()` yields, in archive order: an entry, or the reader's error. */
  type Entries = seq<Decoded<TarEntry>>

  // ---------------------------------------------------------------------------------------
  // tar_list

  /** The first collect: every entry, or the first read error. */
  function CollectEntries(xs: Entries): (r: Outcome<seq<TarEntry>>)
    ensures r.Ok? <==> forall i :: 0 <= i < |xs| ==> xs[i].Decoded?
    ensures r.Ok? ==> |r.value| == |xs| && forall i :: 0 <= i < |xs| ==> r.value[i] == xs[i].item
    ensures r.Err? || r.Ok?
    ensures r.Err? ==> exists i :: (0 <= i < |xs| && xs[i].Corrupt? && r.error == Io(xs[i].message) &&
                                 forall j :: 0 <= j < i ==> xs[j].Decoded?)
    decreases |xs|
  {
    if xs == [] then Ok([])
    else
      match xs[0]
      case Corrupt(m) => Err(Io(m))
      case Decoded(e) =>
        var rest := CollectEntries(xs[1..]);
        if rest.Ok? then Ok([e] + rest.value) else rest
  }

  /** The second collect: every entry's path, or the first path that fails to decode. */
  function CollectPaths(es: seq<TarEntry>): (r: Outcome<seq<string>>)
    ensures r.Ok? <==> forall i :: 0 <= i < |es| ==> es[i].path.Decoded?
    ensures r.Ok? ==> |r.value| == |es| && forall i :: 0 <= i < |es| ==> r.value[i] == es[i].path.item
    ensures r.Err? || r.Ok?
    ensures r.Err? ==> exists i :: (0 <= i < |es| && es[i].path.Corrupt? && r.error == Io(es[i].path.message) &&
                                 forall j :: 0 <= j < i ==> es[j].path.Decoded?)
    decreases |es|
  {
    if es == [] then Ok([])
    else
      match es[0].path
      case Corrupt(m) => Err(Io(m))
      case Decoded(name) =>
        var rest := CollectPaths(es[1..]);
        if rest.Ok? then Ok([name] + rest.value) else rest
  }

  /** `tar_list`: read all entries, then take all their paths. */
  function TarList(xs: Entries): Outcome<seq<string>> {
    match CollectEntries(xs)
    case Ok(es) => CollectPaths(es)
    case Err(e) => Err(e)
    case Abort(m) => Abort(m)
  }

  /** `tar_list` gives one name per entry, in archive order, untouched by strip, filter or
      map (and, as a function, it has no effects); a read error anywhere wins over a path
      that fails to decode, and each is the first of its kind. */
  lemma TarListSpec(xs: Entries)
    ensures TarList(xs).Ok? <==>
      forall i :: 0 <= i < |xs| ==> xs[i].Decoded? && xs[i].item.path.Decoded?
    ensures TarList(xs).Ok? ==>
      |TarList(xs).value| == |xs| && forall i :: 0 <= i < |xs| ==> TarList(xs).value[i] == xs[i].item.path.item
    ensures (exists i :: 0 <= i < |xs| && xs[i].Corrupt?) ==>
      TarList(xs).Err? && TarList(xs).error == CollectEntries(xs).error
  {
    var r := CollectEntries(xs);
    if r.Ok? {
      var paths := CollectPaths(r.value);
      if !paths.Ok? {
        var i :| 0 <= i < |r.value| && r.value[i].path.Corrupt?;
        assert xs[i].item.path.Corrupt?;
      }
    }
  }

  // ---------------------------------------------------------------------------------------
  // Stripping

  /** `components().skip(n)`. */
  function Drop(cs: seq<Component>, n: nat): seq<Component> {
    if n >= |cs| then [] else cs[n..]
  }

  /** The entry path with its first `n` components dropped, collected into a `PathBuf`. */
  function Stripped(p: Platform, path: string, n: nat): string {
    Collect(p, Drop(Components(p, path), n))
  }

  /** When what follows the first `n` components is a run of `Normal` components, none a
      drive, stripping leaves exactly those: whatever the dropped ones were (a root, a
      prefix, `.` or `..`). */
  lemma StrippedComponents(p: Platform, path: string, n: nat, names: seq<string>)
    requires Drop(Components(p, path), n) == Normals(names) && RelPaths.NoDriveParts(p, names)
    ensures Components(p, Stripped(p, path, n)) == Drop(Components(p, path), n)
  {
    var cs := Components(p, path);
    ComponentsNormalsPlain(p, path);
    forall i | 0 <= i < |names| ensures IsPlainName(p, names[i]) {
      assert cs[n + i] == Normal(names[i]);
    }
    CollectNormals(p, names);
  }

  /** Stripping one component from `/a/b` leaves the relative `a/b`, which `RelPath::new`
      accepts. */
  lemma StripLeadingRoot()
    ensures Stripped(Unix, "/a/b", 1) == "a/b"
    ensures RelPaths.NewFile(Unix, "a/b") == Ok(RelPaths.RelPath(RelPaths.File, ["a", "b"], "a/b"))
  {
    var s := "/a/b";
    assert Body(Unix, s) == "a/b";
    assert JoinWith(["a", "b"], '/') == "a/b" by {
      assert ["a", "b"][..1] == ["a"];
    }
    JoinSplit(Unix, ["a", "b"], '/');
    assert BodyComponents(["a", "b"]) == [Normal("a"), Normal("b")] by {
      assert ["a", "b"][1..] == ["b"];
      assert ["b"][1..] == [];
    }
    assert Components(Unix, s) == [RootDir, Normal("a"), Normal("b")];
    var texts := ["a", "b"];
    var cs := Drop(Components(Unix, s), 1);
    assert cs == [Normal("a"), Normal("b")];
    assert seq(|cs|, i requires 0 <= i < |cs| => Text(Unix, cs[i])) == texts;
    assert Extend(Unix, "", texts) == "a/b" by {
      assert texts[..1] == ["a"];
      assert ["a"][..0] == [];
      assert Extend(Unix, "", ["a"]) == Push(Unix, "", "a") == "a";
      assert Push(Unix, "a", "b") == "a/b";
    }
    assert IsPlainName(Unix, "a") && IsPlainName(Unix, "b");
    ComponentsOfJoin(Unix, texts, '/');
    assert !HasRoot(Unix, "a/b");
    RelPaths.NamesOfNormals(texts);
  }

  /** On Windows `C:./a` is the drive and `a`: stripping one component leaves `a`, and
      stripping two leaves nothing. */
  lemma StrippedDriveCurDir(d: char, c: char, n: string)
    requires IsDriveLetter(d) && IsSeparator(Windows, c) && IsPlainName(Windows, n)
    ensures Stripped(Windows, [d, ':', '.', c] + n, 1) == n
    ensures Stripped(Windows, [d, ':', '.', c] + n, 2) == ""
    ensures |Components(Windows, [d, ':', '.', c] + n)| == 2
  {
    var s := [d, ':', '.', c] + n;
    var cs := Drop(Components(Windows, s), 1);
    assert cs == [Normal(n)] && Drop(Components(Windows, s), 2) == [] && |Components(Windows, s)| == 2 by {
      DriveDotName(d, c, n);
    }
    assert Stripped(Windows, s, 1) == n by {
      assert seq(|cs|, i requires 0 <= i < |cs| => Text(Windows, cs[i])) == [n];
      assert [n][..0] == [];
      assert !HasRoot(Windows, n) && !NeedsSeparator(Windows, "");
      assert Extend(Windows, "", [n]) == Push(Windows, "", n) == n;
    }
    assert Stripped(Windows, s, 2) == "" by {
      assert Extend(Windows, "", []) == "";
    }
  }

  /** An entry `C:./a` (any drive, either separator, a plain name): with one component
      stripped it is dispatched at the output directory followed by `a`, as any entry `a`
      would be; with two it is skipped. */
  lemma StripDriveCurDir(d: char, c: char, n: string, to: string, outputDir: string, t: EntryType,
                         filter: HookArgs.MapArgs -> bool, mapTo: HookArgs.MapArgs -> string)
    requires IsDriveLetter(d) && IsSeparator(Windows, c) && IsPlainName(Windows, n) && !HasDrivePrefix(Windows, n)
    requires IsAbsolute(Windows, outputDir)
    ensures var e := TarEntry(Decoded([d, ':', '.', c] + n), t);
      var kind := if t == Directory then RelPaths.Directory else RelPaths.File;
      && TarStep(Windows, to, outputDir, ExtractOpts(1, filter, mapTo), Decoded(e))
         == Dispatch(Windows, ExtractOpts(1, filter, mapTo),
              HookArgs.MapArgs(RelPaths.RelPath(kind, [n], n), Push(Windows, outputDir, n), outputDir), t)
      && TarStep(Windows, to, outputDir, ExtractOpts(2, filter, mapTo), Decoded(e)) == Step([], [], Ok(()))
  {
    var e := TarEntry(Decoded([d, ':', '.', c] + n), t);
    StrippedDriveCurDir(d, c, n);
    DescriptorOnePart(Windows, to, outputDir, n, t == Directory);
    TarStepDescribed(Windows, to, outputDir, ExtractOpts(1, filter, mapTo), e, Descriptor(Windows, to, outputDir, n, t == Directory));
    TarStepStripAll(Windows, to, outputDir, ExtractOpts(2, filter, mapTo), e);
  }

  /** Collecting `Normal` components of plain names gives a path with those components. */
  lemma CollectNormals(p: Platform, names: seq<string>)
    requires forall i :: 0 <= i < |names| ==> IsPlainName(p, names[i]) && !HasDrivePrefix(p, names[i])
    ensures Components(p, Collect(p, Normals(names))) == Normals(names)
  {
    var cs := Normals(names);
    assert seq(|cs|, i requires 0 <= i < |cs| => Text(p, cs[i])) == names;
    ExtendComponents(p, "", names);
    EmptyComponents(p);
    assert [] + Normals(names) == Normals(names);
  }

  /** `strip = 0` leaves a path of plain parts where it was. */
  lemma StripZero(p: Platform, path: string, names: seq<string>)
    requires Components(p, path) == Normals(names) && RelPaths.NoDriveParts(p, names)
    ensures SamePath(p, Stripped(p, path, 0), path)
  {
    assert Drop(Components(p, path), 0) == Components(p, path);
    StrippedComponents(p, path, 0, names);
  }

  /** Stripping at least as many components as the path has leaves nothing. */
  lemma StripConsumes(p: Platform, path: string, n: nat)
    requires n >= |Components(p, path)|
    ensures Components(p, Stripped(p, path, n)) == []
  {
    assert Stripped(p, path, n) == "";
    EmptyComponents(p);
  }

  // ---------------------------------------------------------------------------------------
  // tar_extract, one entry at a time

  /** From the filter on: the filter decides for directories and regular files only; the
      map gives the output path; then the entry type decides what happens there. */
  function Dispatch(p: Platform, opts: ExtractOpts, a: HookArgs.MapArgs, t: EntryType): (st: Step)
    ensures st.files == Outputs(st.effects) && ParentsFirst(p, st.effects)
    ensures forall k :: 0 <= k < |st.effects| ==> st.effects[k].path == opts.mapTo(a)
    ensures st.status.Ok? <==> !t.Other?
    ensures t.Other? ==> st == Step([], [], Abort(UnsupportedEntryType))
    ensures (t == Directory || t == Regular) && !opts.filter(a) ==> st == Step([], [], Ok(()))
    ensures st.files == (if t == Regular && opts.filter(a) then [opts.mapTo(a)] else [])
    ensures t == Directory ==> st.effects == []
    ensures t == Regular && opts.filter(a) ==>
      st == Step(Prepare(p, opts.mapTo(a)) + [WriteFile(opts.mapTo(a))], [opts.mapTo(a)], Ok(()))
    ensures t == Symlink ==> st == Step(Prepare(p, opts.mapTo(a)) + [Unpack(opts.mapTo(a))], [], Ok(()))
  {
    if (t == Directory || t == Regular) && !opts.filter(a) then Step([], [], Ok(()))
    else
      var out := opts.mapTo(a);
      match t
      case Directory => Step([], [], Ok(()))
      case Regular => PrepareThen(p, out, WriteFile(out)); Step(Prepare(p, out) + [WriteFile(out)], [out], Ok(()))
      case Symlink => PrepareThen(p, out, Unpack(out)); Step(Prepare(p, out) + [Unpack(out)], [], Ok(()))
      case Other(_) => Step([], [], Abort(UnsupportedEntryType))
  }

  /** One iteration of `tar_extract`'s loop. */
  function TarStep(p: Platform, to: string, outputDir: string, opts: ExtractOpts, x: Decoded<TarEntry>): (st: Step)
    requires IsAbsolute(p, outputDir)
    ensures st.files == Outputs(st.effects) && ParentsFirst(p, st.effects)
    ensures st.files != [] ==> x.Decoded? && x.item.entryType == Regular
    ensures !st.status.Ok? ==> st.effects == []
  {
    match x
    case Corrupt(m) => Step([], [], Err(Io(m)))
    case Decoded(e) =>
      match e.path
      case Corrupt(m) => Step([], [], Err(Io(m)))
      case Decoded(path) =>
        match Descriptor(p, to, outputDir, Stripped(p, path, opts.strip), e.entryType == Directory)
        case Err(err) => Step([], [], Err(err))
        case Abort(m) => Step([], [], Abort(m))
        case Ok(d) => if d.None? then Step([], [], Ok(())) else Dispatch(p, opts, d.value, e.entryType)
  }

  /** The steps of all entries, in archive order. */
  function TarSteps(p: Platform, to: string, outputDir: string, opts: ExtractOpts, xs: Entries): (steps: seq<Step>)
    requires IsAbsolute(p, outputDir)
    ensures |steps| == |xs|
    decreases |xs|
  {
    if xs == [] then [] else [TarStep(p, to, outputDir, opts, xs[0])] + TarSteps(p, to, outputDir, opts, xs[1..])
  }

  /** The `i`-th step is the step of the `i`-th entry. */
  lemma {:induction false} TarStepsAt(p: Platform, to: string, outputDir: string, opts: ExtractOpts, xs: Entries, i: nat)
    requires IsAbsolute(p, outputDir) && i < |xs|
    ensures TarSteps(p, to, outputDir, opts, xs)[i] == TarStep(p, to, outputDir, opts, xs[i])
    decreases i
  {
    if i > 0 {
      TarStepsAt(p, to, outputDir, opts, xs[1..], i - 1);
    }
  }

  /** The whole loop, after the output directory has been created when missing. */
  function TarRun(p: Platform, to: string, outputDir: string, toExists: bool, opts: ExtractOpts, xs: Entries): Progress
    requires IsAbsolute(p, outputDir)
  {
    Run(Start(to, toExists), TarSteps(p, to, outputDir, opts, xs))
  }

  /** A read error, or a path that fails to decode, ends the call with that error. */
  lemma TarStepCorrupt(p: Platform, to: string, outputDir: string, opts: ExtractOpts, x: Decoded<TarEntry>)
    requires IsAbsolute(p, outputDir)
    requires x.Corrupt? || x.item.path.Corrupt?
    ensures TarStep(p, to, outputDir, opts, x)
      == Step([], [], Err(Io(if x.Corrupt? then x.message else x.item.path.message)))
  {
  }

  /** Past decoding, the step is decided by the descriptor of the stripped path. */
  lemma TarStepDescribed(p: Platform, to: string, outputDir: string, opts: ExtractOpts, e: TarEntry,
                         d: Outcome<Option<HookArgs.MapArgs>>)
    requires IsAbsolute(p, outputDir) && e.path.Decoded?
    requires d == Descriptor(p, to, outputDir, Stripped(p, e.path.item, opts.strip), e.entryType == Directory)
    ensures d.Err? ==> TarStep(p, to, outputDir, opts, Decoded(e)) == Step([], [], Err(d.error))
    ensures d.Abort? ==> TarStep(p, to, outputDir, opts, Decoded(e)) == Step([], [], Abort(d.reason))
    ensures d.Ok? && d.value.None? ==> TarStep(p, to, outputDir, opts, Decoded(e)) == Step([], [], Ok(()))
    ensures d.Ok? && d.value.Some? ==> TarStep(p, to, outputDir, opts, Decoded(e)) == Dispatch(p, opts, d.value.value, e.entryType)
  {
  }

  /** The filter, the map and the match on the entry type, for an entry that has a descriptor. */
  method DispatchEntry(p: Platform, opts: ExtractOpts, args: HookArgs.MapArgs, t: EntryType)
    returns (added: seq<Effect>, recorded: seq<string>, status: Outcome<()>)
    ensures Step(added, recorded, status) == Dispatch(p, opts, args, t)
  {
    added, recorded, status := [], [], Ok(());
    if t == Directory || t == Regular {
      if !opts.filter(args) {
        return;
      }
    }
    var out := opts.mapTo(args);
    match t
    case Directory =>
    case Regular =>
      if HasParent(p, out) {
        added := added + [CreateParentDirs(out)];
      }
      added := added + [WriteFile(out)];
      recorded := recorded + [out];
    case Symlink =>
      if HasParent(p, out) {
        added := added + [CreateParentDirs(out)];
      }
      added := added + [Unpack(out)];
    case Other(_) =>
      status := Abort(UnsupportedEntryType);
  }

  /** The body of `tar_extract`'s loop for one entry: the effects it performs, the paths it
      pushes onto `files`, and whether the loop goes on (`Ok`) or the call ends. */
  method ExtractEntry(p: Platform, to: string, outputDir: string, opts: ExtractOpts, entry: Decoded<TarEntry>)
    returns (added: seq<Effect>, recorded: seq<string>, status: Outcome<()>)
    requires IsAbsolute(p, outputDir)
    ensures Step(added, recorded, status) == TarStep(p, to, outputDir, opts, entry)
  {
    added, recorded, status := [], [], Ok(());
    if entry.Corrupt? || entry.item.path.Corrupt? {
      TarStepCorrupt(p, to, outputDir, opts, entry);
      status := Err(Io(if entry.Corrupt? then entry.message else entry.item.path.message));
      return;
    }
    var filepath := Stripped(p, entry.item.path.item, opts.strip);
    var d := Describe(p, to, outputDir, filepath, entry.item.entryType == Directory);
    TarStepDescribed(p, to, outputDir, opts, entry.item, d);
    match d
    case Err(e) => status := Err(e);
    case Abort(m) => status := Abort(m);
    case Ok(None) =>
    case Ok(Some(args)) =>
      added, recorded, status := DispatchEntry(p, opts, args, entry.item.entryType);
  }

  /** `tar_extract`, with the archive's entries, whether `to` already exists and `to`'s
      absolutized form as inputs; it returns the effects it performed and its result. */
  method TarExtract(p: Platform, to: string, outputDir: string, toExists: bool, entries: Entries, opts: ExtractOpts)
    returns (effects: seq<Effect>, result: Outcome<seq<string>>)
    requires IsAbsolute(p, outputDir)
    ensures effects == TarRun(p, to, outputDir, toExists, opts, entries).effects
    ensures result == Finish(TarRun(p, to, outputDir, toExists, opts, entries))
  {
    ghost var steps := TarSteps(p, to, outputDir, opts, entries);
    ghost var start := Start(to, toExists);
    var files: seq<string> := [];
    effects := [];
    if !toExists {
      effects := effects + [CreateDirAll(to)];
    }
    var status: Outcome<()> := Ok(());
    var i := 0;
    while i < |entries| && status.Ok?
      invariant i <= |entries|
      invariant Run(start, steps[..i]) == Progress(effects, files, status)
    {
      RunAppend(start, steps, i, effects, files, status);
      TarStepsAt(p, to, outputDir, opts, entries, i);
      var added, recorded;
      added, recorded, status := ExtractEntry(p, to, outputDir, opts, entries[i]);
      effects := effects + added;
      files := files + recorded;
      i := i + 1;
    }
    if i == |entries| {
      assert steps[..i] == steps;
    } else {
      RunSticky(start, steps, i);
    }
    result := Finish(Progress(effects, files, status));
  }

  // ---------------------------------------------------------------------------------------
  // What tar_extract promises

  /** Every file or symlink an entry produces is written at the mapped path of a valid
      descriptor for that entry, and that descriptor's path is the output directory
      followed by exactly the (stripped) entry's parts. */
  lemma TarStepTarget(p: Platform, to: string, outputDir: string, opts: ExtractOpts, x: Decoded<TarEntry>)
    requires IsAbsolute(p, outputDir)
    requires TarStep(p, to, outputDir, opts, x).effects != []
    ensures x.Decoded? && x.item.path.Decoded?
    ensures var d := Descriptor(p, to, outputDir, Stripped(p, x.item.path.item, opts.strip), x.item.entryType == Directory);
      && d.Ok? && d.value.Some?
      && (forall k :: 0 <= k < |TarStep(p, to, outputDir, opts, x).effects| ==>
            TarStep(p, to, outputDir, opts, x).effects[k].path == opts.mapTo(d.value.value))
      && HookArgs.Valid(p, d.value.value)
      && Components(p, d.value.value.path) == Components(p, outputDir) + Normals(d.value.value.relPath.parts)
  {
    if x.Corrupt? || x.item.path.Corrupt? {
      TarStepCorrupt(p, to, outputDir, opts, x);
    } else {
      var path := Stripped(p, x.item.path.item, opts.strip);
      var isDirectory := x.item.entryType == Directory;
      var d := Descriptor(p, to, outputDir, path, isDirectory);
      TarStepDescribed(p, to, outputDir, opts, x.item, d);
      DescriptorContained(p, to, outputDir, path, isDirectory);
    }
  }

  /** With the default map (`MapArgs::path`), nothing is written outside the output directory. */
  lemma TarStepDefaultMapContained(p: Platform, to: string, outputDir: string, opts: ExtractOpts, x: Decoded<TarEntry>, k: nat)
    requires IsAbsolute(p, outputDir)
    requires forall a :: opts.mapTo(a) == HookArgs.Path(a)
    requires k < |TarStep(p, to, outputDir, opts, x).effects|
    ensures Components(p, outputDir) <= Components(p, TarStep(p, to, outputDir, opts, x).effects[k].path)
  {
    TarStepTarget(p, to, outputDir, opts, x);
  }

  /** An entry whose path has no more components than `strip` removes is skipped. */
  lemma TarStepStripAll(p: Platform, to: string, outputDir: string, opts: ExtractOpts, e: TarEntry)
    requires IsAbsolute(p, outputDir) && e.path.Decoded?
    requires |Components(p, e.path.item)| <= opts.strip
    ensures TarStep(p, to, outputDir, opts, Decoded(e)) == Step([], [], Ok(()))
  {
    var path := Stripped(p, e.path.item, opts.strip);
    StripConsumes(p, e.path.item, opts.strip);
    DescriptorSkipsEmpty(p, to, outputDir, path, e.entryType == Directory);
    TarStepDescribed(p, to, outputDir, opts, e,
      Descriptor(p, to, outputDir, path, e.entryType == Directory));
  }

  /** With the default map, the whole extraction writes nothing outside the output
      directory: every effect but the creation of `to` is at a path under it. */
  lemma TarRunContained(p: Platform, to: string, outputDir: string, toExists: bool, opts: ExtractOpts, xs: Entries, e: Effect)
    requires IsAbsolute(p, outputDir)
    requires forall a :: opts.mapTo(a) == HookArgs.Path(a)
    requires e in TarRun(p, to, outputDir, toExists, opts, xs).effects
    ensures e == CreateDirAll(to) || Components(p, outputDir) <= Components(p, e.path)
  {
    var start := Start(to, toExists);
    var steps := TarSteps(p, to, outputDir, opts, xs);
    RunEffectsFrom(start, steps, e);
    if e !in start.effects {
      var i :| 0 <= i < |steps| && e in steps[i].effects;
      TarStepsAt(p, to, outputDir, opts, xs, i);
      var k :| 0 <= k < |steps[i].effects| && steps[i].effects[k] == e;
      TarStepDefaultMapContained(p, to, outputDir, opts, xs[i], k);
    }
  }

  /** The loop's steps are the entries' steps. */
  lemma TarStepsAll(p: Platform, to: string, outputDir: string, opts: ExtractOpts, xs: Entries)
    requires IsAbsolute(p, outputDir)
    ensures forall i :: 0 <= i < |xs| ==>
      TarSteps(p, to, outputDir, opts, xs)[i] == TarStep(p, to, outputDir, opts, xs[i])
  {
    forall i | 0 <= i < |xs| {
      TarStepsAt(p, to, outputDir, opts, xs, i);
    }
  }

  /** `files` lists exactly the regular files written, in the order they were written. */
  lemma TarRunOutputs(p: Platform, to: string, outputDir: string, toExists: bool, opts: ExtractOpts, xs: Entries)
    requires IsAbsolute(p, outputDir)
    ensures TarRun(p, to, outputDir, toExists, opts, xs).files == Outputs(TarRun(p, to, outputDir, toExists, opts, xs).effects)
  {
    TarStepsAll(p, to, outputDir, opts, xs);
    RunOutputs(Start(to, toExists), TarSteps(p, to, outputDir, opts, xs));
  }

  /** Parents are prepared before every file and symlink, and a missing output directory is
      created before anything else. */
  lemma TarRunOrder(p: Platform, to: string, outputDir: string, toExists: bool, opts: ExtractOpts, xs: Entries)
    requires IsAbsolute(p, outputDir)
    ensures ParentsFirst(p, TarRun(p, to, outputDir, toExists, opts, xs).effects)
    ensures !toExists ==> [CreateDirAll(to)] <= TarRun(p, to, outputDir, toExists, opts, xs).effects
  {
    var start := Start(to, toExists);
    TarStepsAll(p, to, outputDir, opts, xs);
    assert ParentsFirst(p, start.effects);
    RunParentsFirst(p, start, TarSteps(p, to, outputDir, opts, xs));
    RunKeepsStart(start, TarSteps(p, to, outputDir, opts, xs));
  }

  /** The call succeeds exactly when no entry's step ends it; so success means every entry
      and every path could be read. */
  lemma TarRunOk(p: Platform, to: string, outputDir: string, toExists: bool, opts: ExtractOpts, xs: Entries)
    requires IsAbsolute(p, outputDir)
    ensures Finish(TarRun(p, to, outputDir, toExists, opts, xs)).Ok? <==>
      forall i :: 0 <= i < |xs| ==> TarStep(p, to, outputDir, opts, xs[i]).status.Ok?
    ensures Finish(TarRun(p, to, outputDir, toExists, opts, xs)).Ok? ==>
      forall i :: 0 <= i < |xs| ==> xs[i].Decoded? && xs[i].item.path.Decoded?
  {
    TarStepsAll(p, to, outputDir, opts, xs);
    RunOk(Start(to, toExists), TarSteps(p, to, outputDir, opts, xs));
    forall i | 0 <= i < |xs| && TarStep(p, to, outputDir, opts, xs[i]).status.Ok?
      ensures xs[i].Decoded? && xs[i].item.path.Decoded?
    {
      if xs[i].Corrupt? || xs[i].item.path.Corrupt? {
        TarStepCorrupt(p, to, outputDir, opts, xs[i]);
      }
    }
  }
}
