/** `RelPath`: a path reported by an archive, checked to be relative and kept as its list of
    `Normal` parts, with a file/directory kind and the canonical `/`-joined text. */
module RelPaths {
  import opened Errors
  import opened Paths

  /** `PART_SEPARATOR`: `as_str` joins the parts with `/` on every platform. */
  const PartSeparator: char := '/'

  datatype RelPathKind = File | Directory

  /** The struct's three fields; `new` is its only producer. */
  datatype RelPath = RelPath(kind: RelPathKind, parts: seq<string>, value: string)

  /** What every `RelPath` built by `new` satisfies: plain parts, and `value` their join. */
  predicate Valid(p: Platform, r: RelPath) {
    ValidParts(p, r.parts) && r.value == JoinWith(r.parts, PartSeparator)
  }

  /** No part carries a Windows drive prefix (always true on Unix). */
  predicate NoDriveParts(p: Platform, parts: seq<string>) {
    forall i :: 0 <= i < |parts| ==> !HasDrivePrefix(p, parts[i])
  }

  predicate EndsWithSeparator(p: Platform, s: string) {
    |s| > 0 && (s[|s| - 1] == MainSeparator(p) || s[|s| - 1] == PartSeparator)
  }

  /** `guess_kind`: a trailing separator means a directory. */
  function GuessKind(p: Platform, s: string): RelPathKind {
    if EndsWithSeparator(p, s) then Directory else File
  }

  /** The names carried by a run of `Normal` components. */
  function Names(cs: seq<Component>): (names: seq<string>)
    requires AllNormal(cs)
    ensures Normals(names) == cs
  {
    seq(|cs|, i requires 0 <= i < |cs| => cs[i].name)
  }

  /** `get_parts`: a path that is not relative is refused; any component other than
      `Normal` (a prefix or root of a relative Windows path, `.`, `..`) panics. */
  function GetParts(p: Platform, s: string): Outcome<seq<string>> {
    if !IsRelative(p, s) then Err(PathNotRelative(s))
    else if AllNormal(Components(p, s)) then Ok(Names(Components(p, s)))
    else Abort(Unreachable)
  }

  /** `RelPath::new`. */
  function New(p: Platform, kind: RelPathKind, s: string): Outcome<RelPath> {
    match GetParts(p, s)
    case Ok(parts) => Ok(RelPath(kind, parts, JoinWith(parts, PartSeparator)))
    case Err(e) => Err(e)
    case Abort(m) => Abort(m)
  }

  function NewGuessKind(p: Platform, s: string): Outcome<RelPath> {
    New(p, GuessKind(p, s), s)
  }

  function NewDirectory(p: Platform, s: string): Outcome<RelPath> {
    New(p, Directory, s)
  }

  function NewFile(p: Platform, s: string): Outcome<RelPath> {
    New(p, File, s)
  }

  /** `as_str`, which `Display` prints as is. */
  function AsStr(r: RelPath): string {
    r.value
  }

  function Kind(r: RelPath): RelPathKind {
    r.kind
  }

  function Parts(r: RelPath): seq<string> {
    r.parts
  }

  function IsDirectory(r: RelPath): (b: bool)
    ensures b <==> !IsFile(r)
  {
    r.kind == Directory
  }

  function IsFile(r: RelPath): bool {
    r.kind == File
  }

  /** `join_onto`: `extend` the base with each part in turn. */
  function JoinOnto(p: Platform, r: RelPath, base: string): string {
    Extend(p, base, r.parts)
  }

  // ---------------------------------------------------------------------------------------
  // What `new` produces

  /** `new` fails with `PathNotRelative` exactly for a path that is not relative, panics
      exactly for a relative path with a component other than `Normal`, and otherwise
      succeeds with the kind it was asked for. */
  lemma NewOutcome(p: Platform, k: RelPathKind, s: string)
    ensures New(p, k, s) == Err(PathNotRelative(s)) <==> IsAbsolute(p, s)
    ensures New(p, k, s).Abort? <==> IsRelative(p, s) && !AllNormal(Components(p, s))
    ensures New(p, k, s).Ok? <==> IsRelative(p, s) && AllNormal(Components(p, s))
    ensures New(p, k, s).Ok? ==> New(p, k, s).value.kind == k
  {
  }

  lemma NamesOfNormals(names: seq<string>)
    ensures Names(Normals(names)) == names
  {
  }

  /** Every `RelPath` that `new` returns is valid, and its parts are the path's components:
      each part is non-empty, not `.` or `..`, and holds no separator. */
  lemma NewValid(p: Platform, k: RelPathKind, s: string)
    requires New(p, k, s).Ok?
    ensures Valid(p, New(p, k, s).value)
    ensures Components(p, s) == Normals(New(p, k, s).value.parts)
  {
    var names := Names(Components(p, s));
    NormalComponentsValid(p, s, names);
  }

  /** What the accessors give back on a `RelPath` that `new` built: the requested kind, the
      path's `Normal` names in order, and their `/`-join as `as_str`. */
  lemma NewAccessors(p: Platform, k: RelPathKind, s: string)
    requires New(p, k, s).Ok?
    ensures Kind(New(p, k, s).value) == k
    ensures Normals(Parts(New(p, k, s).value)) == Components(p, s)
    ensures AsStr(New(p, k, s).value) == JoinWith(Parts(New(p, k, s).value), PartSeparator)
  {
    NewValid(p, k, s);
  }

  /** `new_file` always yields a file and `new_directory` a directory, whatever the text
      ends with; the two accept the same paths and give the same parts. */
  lemma NewFileDirectory(p: Platform, s: string)
    ensures NewFile(p, s).Ok? <==> NewDirectory(p, s).Ok?
    ensures NewFile(p, s).Ok? ==> IsFile(NewFile(p, s).value) && !IsDirectory(NewFile(p, s).value)
    ensures NewDirectory(p, s).Ok? ==> IsDirectory(NewDirectory(p, s).value) && !IsFile(NewDirectory(p, s).value)
    ensures NewFile(p, s).Ok? ==> NewFile(p, s).value.parts == NewDirectory(p, s).value.parts
  {
  }

  /** `new_guess_kind` gives a directory exactly when the text ends with `/` or the
      platform separator. */
  lemma NewGuessKindKind(p: Platform, s: string)
    requires NewGuessKind(p, s).Ok?
    ensures IsDirectory(NewGuessKind(p, s).value) <==> EndsWithSeparator(p, s)
  {
  }

  // ---------------------------------------------------------------------------------------
  // The canonical text

  /** A valid `RelPath` is rebuilt exactly from its own `as_str`. */
  lemma RoundTrip(p: Platform, r: RelPath)
    requires Valid(p, r)
    ensures New(p, r.kind, AsStr(r)) == Ok(r)
  {
    ComponentsOfJoin(p, r.parts, PartSeparator);
    var s := AsStr(r);
    assert Head(p, s) == [];
    assert !HasRoot(p, s);
    NamesOfNormals(r.parts);
  }

  /** Splitting `as_str` (and so `Display`) at `/` gives back the parts. */
  lemma AsStrSplits(p: Platform, r: RelPath)
    requires Valid(p, r) && r.parts != []
    ensures Split(p, AsStr(r)) == r.parts
  {
    JoinSplit(p, r.parts, PartSeparator);
  }

  /** A trailing separator adds no part: a path with one appended is relative exactly when
      the path is, and then builds the same `RelPath`. */
  lemma TrailingSeparatorIgnored(p: Platform, k: RelPathKind, s: string, c: char)
    requires IsSeparator(p, c) && |s| > 0 && !(HasDrivePrefix(p, s) && |s| == 2)
    ensures IsRelative(p, s + [c]) == IsRelative(p, s)
    ensures IsRelative(p, s) ==> New(p, k, s + [c]) == New(p, k, s)
  {
    TrailingFlags(p, s, c);
    TrailingSeparator(p, s, c);
  }

  /** On Windows, texts that differ only in `\` against `/` build the same `RelPath`, so
      they also have the same parts and the same `join_onto`. */
  lemma SlashedSame(k: RelPathKind, s: string)
    ensures IsRelative(Windows, s) == IsRelative(Windows, Slashed(s))
    ensures IsRelative(Windows, s) ==> New(Windows, k, s) == New(Windows, k, Slashed(s))
  {
    ComponentsSlashed(s);
  }

  // ---------------------------------------------------------------------------------------
  // `join_onto`

  /** `join_onto(base)` is `base` followed by exactly the parts, in order, when no part
      carries a drive prefix (always so on Unix). */
  lemma JoinOntoComponents(p: Platform, r: RelPath, base: string)
    requires Valid(p, r) && NoDriveParts(p, r.parts)
    ensures Components(p, JoinOnto(p, r, base)) == Components(p, base) + Normals(r.parts)
  {
    ExtendComponents(p, base, r.parts);
  }

  /** The text `join_onto` builds: the base, a separator when one is needed, and the parts
      joined with the platform separator; on Unix, the base followed by `as_str`. */
  lemma JoinOntoText(p: Platform, r: RelPath, base: string)
    requires Valid(p, r) && NoDriveParts(p, r.parts) && r.parts != []
    ensures JoinOnto(p, r, base) == Lead(p, base) + JoinWith(r.parts, MainSeparator(p))
    ensures p == Unix ==> JoinOnto(p, r, base) == Lead(p, base) + AsStr(r)
  {
    ExtendPlain(p, base, r.parts);
  }

  /** On Windows, `a/C:x` is a valid relative path whose second part looks like a drive. */
  lemma DriveLikePart()
    ensures NewFile(Windows, "a/C:x") == Ok(RelPath(File, ["a", "C:x"], "a/C:x"))
  {
    var parts := ["a", "C:x"];
    assert JoinWith(parts, '/') == "a/C:x";
    ComponentsOfJoin(Windows, parts, '/');
    assert Head(Windows, "a/C:x") == [];
    NamesOfNormals(parts);
  }

  /** As written, on Windows a later part such as `C:x` (a `Normal` component when it is not
      first) replaces the whole buffer when pushed: `a/C:x` joined onto `C:\root` gives the
      relative path `C:x`, outside the base. */
  lemma JoinOntoDriveEscape()
    ensures Valid(Windows, RelPath(File, ["a", "C:x"], "a/C:x"))
    ensures JoinOnto(Windows, RelPath(File, ["a", "C:x"], "a/C:x"), "C:\\root") == "C:x"
    ensures IsAbsolute(Windows, "C:\\root") && !IsAbsolute(Windows, "C:x")
  {
    var parts := ["a", "C:x"];
    assert JoinWith(parts, '/') == "a/C:x";
    assert parts[..1] == ["a"];
    assert "C:x"[2..] == "x";
    assert "C:\\root"[2..] == "\\root";
  }

  /** The evident intent of `join_onto`: push the parts as one relative path, as the
      extraction loops do, so the result is always the base followed by the parts. */
  function JoinOntoWhole(p: Platform, r: RelPath, base: string): string {
    Push(p, base, JoinWith(r.parts, MainSeparator(p)))
  }

  /** The corrected join stays under the base for every valid `RelPath`, drive-like parts
      included, and agrees with `join_onto` wherever that one is right. */
  lemma JoinOntoWholeComponents(p: Platform, r: RelPath, base: string)
    requires Valid(p, r)
    ensures Components(p, JoinOntoWhole(p, r, base)) == Components(p, base) + Normals(r.parts)
    ensures NoDriveParts(p, r.parts) ==> SamePath(p, JoinOntoWhole(p, r, base), JoinOnto(p, r, base))
  {
    ComponentsOfJoin(p, r.parts, MainSeparator(p));
    PushComponents(p, base, JoinWith(r.parts, MainSeparator(p)));
    if NoDriveParts(p, r.parts) {
      JoinOntoComponents(p, r, base);
    }
  }

  // ---------------------------------------------------------------------------------------
  // The module's own test vectors, on Windows

  /** `a` and `b` separated by either separator build the parts `[a, b]` and the text `a/b`. */
  lemma TwoParts(k: RelPathKind, a: string, c: char, b: string)
    requires IsSeparator(Windows, c) && IsPlainName(Windows, a) && IsPlainName(Windows, b)
    requires !HasDrivePrefix(Windows, a)
    ensures IsRelative(Windows, a + [c] + b)
    ensures New(Windows, k, a + [c] + b) == Ok(RelPath(k, [a, b], a + "/" + b))
  {
    var s := a + [c] + b;
    assert [a, b][..1] == [a];
    assert JoinWith([a, b], c) == s;
    assert JoinWith([a, b], PartSeparator) == a + "/" + b;
    ComponentsOfJoin(Windows, [a, b], c);
    assert Head(Windows, s) == [];
    assert IsRelative(Windows, s);
    NamesOfNormals([a, b]);
  }

  lemma Literals()
    ensures "aaa\\bbb" == "aaa" + ['\\'] + "bbb"
    ensures "aaa/bbb" == "aaa" + ['/'] + "bbb"
    ensures "aaa\\bbb\\" == "aaa\\bbb" + ['\\']
    ensures "aaa\\bbb/" == "aaa\\bbb" + ['/']
    ensures "aaa/bbb/" == "aaa/bbb" + ['/']
    ensures IsPlainName(Windows, "aaa") && IsPlainName(Windows, "bbb") && !HasDrivePrefix(Windows, "aaa")
  {
  }

  lemma AaaBbb(k: RelPathKind)
    ensures New(Windows, k, "aaa\\bbb") == Ok(RelPath(k, ["aaa", "bbb"], "aaa/bbb"))
    ensures New(Windows, k, "aaa/bbb") == Ok(RelPath(k, ["aaa", "bbb"], "aaa/bbb"))
    ensures New(Windows, k, "aaa\\bbb\\") == Ok(RelPath(k, ["aaa", "bbb"], "aaa/bbb"))
    ensures New(Windows, k, "aaa\\bbb/") == Ok(RelPath(k, ["aaa", "bbb"], "aaa/bbb"))
    ensures New(Windows, k, "aaa/bbb/") == Ok(RelPath(k, ["aaa", "bbb"], "aaa/bbb"))
  {
    Literals();
    TwoParts(k, "aaa", '\\', "bbb");
    TwoParts(k, "aaa", '/', "bbb");
    TrailingSeparatorIgnored(Windows, k, "aaa\\bbb", '\\');
    TrailingSeparatorIgnored(Windows, k, "aaa\\bbb", '/');
    TrailingSeparatorIgnored(Windows, k, "aaa/bbb", '/');
  }

  /** `new_guess_kind`'s cases: a trailing separator of either kind makes a directory. */
  lemma GuessKindVectors()
    ensures NewGuessKind(Windows, "aaa\\bbb") == Ok(RelPath(File, ["aaa", "bbb"], "aaa/bbb"))
    ensures NewGuessKind(Windows, "aaa\\bbb\\") == Ok(RelPath(Directory, ["aaa", "bbb"], "aaa/bbb"))
    ensures NewGuessKind(Windows, "aaa/bbb") == Ok(RelPath(File, ["aaa", "bbb"], "aaa/bbb"))
    ensures NewGuessKind(Windows, "aaa/bbb/") == Ok(RelPath(Directory, ["aaa", "bbb"], "aaa/bbb"))
  {
    GuessKindLiterals();
    AaaBbb(File);
    AaaBbb(Directory);
  }

  lemma GuessKindLiterals()
    ensures GuessKind(Windows, "aaa\\bbb") == File && GuessKind(Windows, "aaa/bbb") == File
    ensures GuessKind(Windows, "aaa\\bbb\\") == Directory && GuessKind(Windows, "aaa/bbb/") == Directory
  {
  }

  lemma AaaBbbValid(k: RelPathKind)
    ensures Valid(Windows, RelPath(k, ["aaa", "bbb"], "aaa/bbb"))
    ensures NoDriveParts(Windows, ["aaa", "bbb"])
    ensures JoinWith(["aaa", "bbb"], MainSeparator(Windows)) == "aaa\\bbb"
  {
    Literals();
    assert ["aaa", "bbb"][..1] == ["aaa"];
  }

  /** Bases naming the same path give joins naming the same path. */
  lemma JoinOntoSameBase(p: Platform, r: RelPath, b1: string, b2: string)
    requires Valid(p, r) && NoDriveParts(p, r.parts) && SamePath(p, b1, b2)
    ensures SamePath(p, JoinOnto(p, r, b1), JoinOnto(p, r, b2))
  {
    JoinOntoComponents(p, r, b1);
    JoinOntoComponents(p, r, b2);
    KeysConcat(Components(p, b1), Normals(r.parts));
    KeysConcat(Components(p, b2), Normals(r.parts));
  }

  lemma SlashedRoot()
    ensures Slashed("C:\\root") == "C:/root"
  {
  }

  lemma SlashedSamePath(s: string)
    ensures SamePath(Windows, Slashed(s), s)
  {
    ComponentsSlashed(s);
  }

  lemma SlashRoot()
    ensures SamePath(Windows, "C:/root", "C:\\root")
  {
    SlashedRoot();
    SlashedSamePath("C:\\root");
  }

  /** The module's `join_onto` cases for `aaa`/`bbb` of either kind: onto `C:\` and onto
      `C:\root` the parts give exactly `C:\aaa\bbb` and `C:\root\aaa\bbb`; onto `C:/root`
      they give a path equal to `C:\root\aaa\bbb`. */
  lemma JoinOntoVectors(k: RelPathKind)
    ensures JoinOnto(Windows, RelPath(k, ["aaa", "bbb"], "aaa/bbb"), "C:\\") == "C:\\aaa\\bbb"
    ensures JoinOnto(Windows, RelPath(k, ["aaa", "bbb"], "aaa/bbb"), "C:\\root") == "C:\\root\\aaa\\bbb"
    ensures SamePath(Windows, JoinOnto(Windows, RelPath(k, ["aaa", "bbb"], "aaa/bbb"), "C:/root"), "C:\\root\\aaa\\bbb")
  {
    var r := RelPath(k, ["aaa", "bbb"], "aaa/bbb");
    AaaBbbValid(k);
    assert JoinOnto(Windows, r, "C:\\") == "C:\\aaa\\bbb" by {
      JoinOntoText(Windows, r, "C:\\");
    }
    assert JoinOnto(Windows, r, "C:\\root") == "C:\\root\\aaa\\bbb" by {
      JoinOntoText(Windows, r, "C:\\root");
    }
    assert SamePath(Windows, JoinOnto(Windows, r, "C:/root"), JoinOnto(Windows, r, "C:\\root")) by {
      SlashRoot();
      JoinOntoSameBase(Windows, r, "C:/root", "C:\\root");
    }
  }
}
