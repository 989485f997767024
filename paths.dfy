/** The behaviour of Rust's `std::path` that the core relies on: separators, parsing a path
    into components, absoluteness, `PathBuf::push` / `extend`, and equality of paths
    (which Rust decides component by component). Paths are strings. */
module Paths {

  /** The platform the library is compiled for; it decides the separators. */
  datatype Platform = Unix | Windows

  /** `std::path::MAIN_SEPARATOR`. */
  function MainSeparator(p: Platform): char {
    if p == Windows then '\\' else '/'
  }

  /** `/` separates on every platform; on Windows `\` separates as well. */
  predicate IsSeparator(p: Platform, c: char) {
    c == '/' || c == MainSeparator(p)
  }

  predicate IsDriveLetter(c: char) {
    'a' <= c <= 'z' || 'A' <= c <= 'Z'
  }

  /** A Windows drive prefix such as `C:`. */
  predicate HasDrivePrefix(p: Platform, s: string) {
    p == Windows && |s| >= 2 && IsDriveLetter(s[0]) && s[1] == ':'
  }

  function PrefixLen(p: Platform, s: string): nat {
    if HasDrivePrefix(p, s) then 2 else 0
  }

  function AfterPrefix(p: Platform, s: string): string {
    s[PrefixLen(p, s)..]
  }

  /** A separator right after the (possibly empty) prefix. */
  predicate HasRoot(p: Platform, s: string) {
    var r := AfterPrefix(p, s);
    |r| > 0 && IsSeparator(p, r[0])
  }

  /** `Path::is_absolute`: a root, and on Windows also a prefix. */
  predicate IsAbsolute(p: Platform, s: string) {
    HasRoot(p, s) && (p == Unix || HasDrivePrefix(p, s))
  }

  /** `Path::is_relative`. */
  predicate IsRelative(p: Platform, s: string) {
    !IsAbsolute(p, s)
  }

  /** A path such as `.` or `./a` starts with a `CurDir` component; after a drive prefix
      (`C:./a`) the `.` is dropped like any other. */
  predicate LeadingCurDir(p: Platform, s: string) {
    var r := AfterPrefix(p, s);
    !HasDrivePrefix(p, s) && !HasRoot(p, s) && |r| > 0 && r[0] == '.' && (|r| == 1 || IsSeparator(p, r[1]))
  }

  /** What follows the prefix and the root. */
  function Body(p: Platform, s: string): string {
    var r := AfterPrefix(p, s);
    if HasRoot(p, s) then r[1..] else r
  }

  /** The pieces between separators, empty pieces included. */
  function Split(p: Platform, s: string): (pieces: seq<string>)
    ensures |pieces| >= 1
  {
    if s == [] then [[]]
    else
      var rest := Split(p, s[1..]);
      if IsSeparator(p, s[0]) then [[]] + rest
      else [[s[0]] + rest[0]] + rest[1..]
  }

  /** `std::path::Component`. */
  datatype Component = Prefix(text: string) | RootDir | CurDir | ParentDir | Normal(name: string)

  /** How one body piece is read: empty pieces and `.` vanish, `..` is `ParentDir`. */
  function Classify(piece: string): seq<Component> {
    if piece == "" || piece == "." then []
    else if piece == ".." then [ParentDir]
    else [Normal(piece)]
  }

  function BodyComponents(pieces: seq<string>): seq<Component> {
    if pieces == [] then [] else Classify(pieces[0]) + BodyComponents(pieces[1..])
  }

  /** `Path::components`. */
  function Components(p: Platform, s: string): seq<Component> {
    Head(p, s) + BodyComponents(Split(p, Body(p, s)))
  }

  /** The prefix, root and leading `.` components. */
  function Head(p: Platform, s: string): seq<Component> {
    (if HasDrivePrefix(p, s) then [Prefix(s[..2])] else [])
    + (if HasRoot(p, s) then [RootDir] else [])
    + (if LeadingCurDir(p, s) then [CurDir] else [])
  }

  /** `Path`'s `==`: the same components, a drive prefix compared by its upper-cased letter
      (Rust parses `c:` and `C:` to the same `Prefix::Disk`). */
  predicate SamePath(p: Platform, a: string, b: string) {
    Keys(Components(p, a)) == Keys(Components(p, b))
  }

  function UpperCase(c: char): char {
    if 'a' <= c <= 'z' then (c as int - 32) as char else c
  }

  /** How `==` sees one component. */
  function Key(c: Component): Component {
    if c.Prefix? && |c.text| > 0 then Prefix([UpperCase(c.text[0])] + c.text[1..]) else c
  }

  function Keys(cs: seq<Component>): (ks: seq<Component>)
    ensures |ks| == |cs| && forall i :: 0 <= i < |cs| ==> ks[i] == Key(cs[i])
  {
    seq(|cs|, i requires 0 <= i < |cs| => Key(cs[i]))
  }

  predicate AllNormal(cs: seq<Component>) {
    forall i :: 0 <= i < |cs| ==> cs[i].Normal?
  }

  function Normals(names: seq<string>): (cs: seq<Component>)
    ensures |cs| == |names| && AllNormal(cs)
    ensures forall i :: 0 <= i < |names| ==> cs[i] == Normal(names[i])
  {
    seq(|names|, i requires 0 <= i < |names| => Normal(names[i]))
  }

  /** A name a `Normal` component can carry. */
  predicate IsPlainName(p: Platform, n: string) {
    && n != "" && n != "." && n != ".."
    && forall i :: 0 <= i < |n| ==> !IsSeparator(p, n[i])
  }

  /** What the components of a relative path made only of `Normal` parts look like. */
  predicate ValidParts(p: Platform, parts: seq<string>) {
    && (forall i :: 0 <= i < |parts| ==> IsPlainName(p, parts[i]))
    && (|parts| > 0 ==> !HasDrivePrefix(p, parts[0]))
  }

  /** `parts.join(sep)`. */
  function JoinWith(parts: seq<string>, sep: char): string
    decreases |parts|
  {
    if |parts| == 0 then ""
    else if |parts| == 1 then parts[0]
    else JoinWith(parts[..|parts| - 1], sep) + [sep] + parts[|parts| - 1]
  }

  /** `PathBuf::push` needs a separator: the buffer is not empty, does not end in one,
      and is not a bare drive such as `C:`. */
  predicate NeedsSeparator(p: Platform, base: string) {
    |base| > 0 && !IsSeparator(p, base[|base| - 1]) && !(HasDrivePrefix(p, base) && |base| == 2)
  }

  /** `PathBuf::push`: an absolute path, or on Windows one with a prefix, replaces the
      buffer; a rooted path keeps only the buffer's prefix; otherwise the path is
      appended, after a separator when one is needed. */
  function Push(p: Platform, base: string, path: string): string {
    if IsAbsolute(p, path) || HasDrivePrefix(p, path) then path
    else if HasRoot(p, path) then base[..PrefixLen(p, base)] + path
    else if NeedsSeparator(p, base) then base + [MainSeparator(p)] + path
    else base + path
  }

  /** `PathBuf::extend`: push each path in turn. */
  function Extend(p: Platform, base: string, paths: seq<string>): string
    decreases |paths|
  {
    if paths == [] then base
    else Push(p, Extend(p, base, paths[..|paths| - 1]), paths[|paths| - 1])
  }

  /** `Component::as_os_str`. */
  function Text(p: Platform, c: Component): string {
    match c
    case Prefix(t) => t
    case RootDir => [MainSeparator(p)]
    case CurDir => "."
    case ParentDir => ".."
    case Normal(n) => n
  }

  /** `components.collect::<PathBuf>()`. */
  function Collect(p: Platform, cs: seq<Component>): string {
    Extend(p, "", seq(|cs|, i requires 0 <= i < |cs| => Text(p, cs[i])))
  }

  /** `Path::file_name`: the last component when it is `Normal`. */
  function FileName(p: Platform, s: string): (r: Option<string>)
    ensures r.Some? <==> |Components(p, s)| > 0 && Components(p, s)[|Components(p, s)| - 1].Normal?
  {
    var cs := Components(p, s);
    if |cs| > 0 && cs[|cs| - 1].Normal? then Some(cs[|cs| - 1].name) else None
  }

  datatype Option<T> = None | Some(value: T)

  /** On Windows, every `\` written as `/`. */
  function Slashed(s: string): (t: string)
    ensures |t| == |s|
  {
    seq(|s|, i requires 0 <= i < |s| => if s[i] == '\\' then '/' else s[i])
  }

  // ---------------------------------------------------------------------------------------
  // Lemmas about splitting and components

  /** No piece contains a separator. */
  lemma {:induction false} SplitPiecesPlain(p: Platform, s: string)
    ensures forall i, j :: 0 <= i < |Split(p, s)| && 0 <= j < |Split(p, s)[i]| ==> !IsSeparator(p, Split(p, s)[i][j])
    decreases |s|
  {
    if s != [] {
      SplitPiecesPlain(p, s[1..]);
    }
  }

  lemma {:induction false} SplitConcat(p: Platform, a: string, c: char, b: string)
    requires IsSeparator(p, c)
    ensures Split(p, a + [c] + b) == Split(p, a) + Split(p, b)
    decreases |a|
  {
    var s := a + [c] + b;
    if a == [] {
      assert s[0] == c && s[1..] == b;
    } else {
      SplitConcat(p, a[1..], c, b);
      SplitConcatStep(p, a, c, b);
    }
  }

  lemma SplitConcatStep(p: Platform, a: string, c: char, b: string)
    requires a != [] && Split(p, a[1..] + [c] + b) == Split(p, a[1..]) + Split(p, b)
    ensures Split(p, a + [c] + b) == Split(p, a) + Split(p, b)
  {
    var s := a + [c] + b;
    assert s[0] == a[0];
    assert s[1..] == a[1..] + [c] + b;
    var u := Split(p, a[1..]);
    var v := Split(p, b);
    SplitUnfold(p, s);
    SplitUnfold(p, a);
    PrependConcat(p, a[0], u, v);
  }

  /** The piece list of `ch` followed by the pieces `rest`. */
  function Prepend(p: Platform, ch: char, rest: seq<string>): seq<string>
    requires |rest| >= 1
  {
    if IsSeparator(p, ch) then [[]] + rest else [[ch] + rest[0]] + rest[1..]
  }

  lemma SplitUnfold(p: Platform, s: string)
    requires s != []
    ensures Split(p, s) == Prepend(p, s[0], Split(p, s[1..]))
  {
  }

  lemma PrependConcat(p: Platform, ch: char, u: seq<string>, v: seq<string>)
    requires |u| >= 1
    ensures Prepend(p, ch, u + v) == Prepend(p, ch, u) + v
  {
    if IsSeparator(p, ch) {
      Associative([[]], u, v);
    } else {
      assert (u + v)[0] == u[0];
      assert (u + v)[1..] == u[1..] + v;
      Associative([[ch] + u[0]], u[1..], v);
    }
  }

  lemma {:induction false} SplitPlain(p: Platform, n: string)
    requires forall i :: 0 <= i < |n| ==> !IsSeparator(p, n[i])
    ensures Split(p, n) == [n]
    decreases |n|
  {
    if n != [] {
      SplitPlain(p, n[1..]);
      assert [n[0]] + n[1..] == n;
    }
  }

  /** The first piece is the text up to the first separator. */
  lemma {:induction false} FirstPiece(p: Platform, s: string)
    ensures |Split(p, s)[0]| <= |s|
    ensures Split(p, s)[0] == s[..|Split(p, s)[0]|]
    ensures |Split(p, s)[0]| == |s| || IsSeparator(p, s[|Split(p, s)[0]|])
    decreases |s|
  {
    if s != [] && !IsSeparator(p, s[0]) {
      FirstPiece(p, s[1..]);
      var f := Split(p, s[1..])[0];
      assert Split(p, s)[0] == [s[0]] + f;
      assert s[1..][..|f|] == f;
      assert s[..|f| + 1] == [s[0]] + s[1..][..|f|];
      if |f| < |s| - 1 {
        assert s[|f| + 1] == s[1..][|f|];
      }
    }
  }

  lemma {:induction false} BodyComponentsConcat(u: seq<string>, v: seq<string>)
    ensures BodyComponents(u + v) == BodyComponents(u) + BodyComponents(v)
    decreases |u|
  {
    if u != [] {
      assert (u + v)[1..] == u[1..] + v;
      BodyComponentsConcat(u[1..], v);
      assert BodyComponents(u + v) == Classify(u[0]) + BodyComponents(u[1..] + v);
    } else {
      assert u + v == v;
    }
  }

  /** Body components are `Normal` names without separators, or `ParentDir`. */
  lemma {:induction false} BodyComponentsPlain(p: Platform, pieces: seq<string>)
    requires forall i, j :: 0 <= i < |pieces| && 0 <= j < |pieces[i]| ==> !IsSeparator(p, pieces[i][j])
    ensures forall k :: 0 <= k < |BodyComponents(pieces)| ==>
      BodyComponents(pieces)[k] == ParentDir
      || (BodyComponents(pieces)[k].Normal? && IsPlainName(p, BodyComponents(pieces)[k].name))
    decreases |pieces|
  {
    if pieces != [] {
      BodyComponentsPlain(p, pieces[1..]);
      var h := Classify(pieces[0]);
      assert forall j :: 0 <= j < |pieces[0]| ==> !IsSeparator(p, pieces[0][j]);
      assert BodyComponents(pieces) == h + BodyComponents(pieces[1..]);
    }
  }

  lemma HeadNotNormal(p: Platform, y: string)
    ensures AllNormal(Head(p, y)) ==> Head(p, y) == []
  {
    var h := Head(p, y);
    assert |h| > 0 ==> !h[0].Normal?;
  }

  lemma HeadEmpty(p: Platform, y: string)
    requires AllNormal(Components(p, y))
    ensures Head(p, y) == []
  {
    var h := Head(p, y);
    var rest := BodyComponents(Split(p, Body(p, y)));
    assert Components(p, y) == h + rest;
    assert (h + rest)[..|h|] == h;
    HeadNotNormal(p, y);
  }

  lemma HeadEmptyShape(p: Platform, y: string)
    requires Head(p, y) == []
    ensures Body(p, y) == y && !HasDrivePrefix(p, y) && !HasRoot(p, y) && !LeadingCurDir(p, y)
  {
    assert y[0..] == y;
  }

  /** A path whose components are all `Normal` has no prefix, no root and no leading `.`. */
  lemma NoHead(p: Platform, y: string)
    requires AllNormal(Components(p, y))
    ensures Head(p, y) == [] && Body(p, y) == y
    ensures !HasDrivePrefix(p, y) && !HasRoot(p, y) && !LeadingCurDir(p, y)
    ensures Components(p, y) == BodyComponents(Split(p, y))
  {
    HeadEmpty(p, y);
    HeadEmptyShape(p, y);
  }

  /** Joining a non-empty `x` (not a bare drive), a separator and `y` keeps the head of `x`
      and concatenates the bodies. */
  lemma HeadConcat(p: Platform, x: string, c: char, y: string)
    requires IsSeparator(p, c) && |x| > 0 && !(HasDrivePrefix(p, x) && |x| == 2)
    ensures Head(p, x + [c] + y) == Head(p, x)
    ensures Body(p, x + [c] + y) == Body(p, x) + [c] + y
  {
    var s := x + [c] + y;
    assert HasDrivePrefix(p, s) == HasDrivePrefix(p, x) by {
      if |x| >= 2 { assert s[0] == x[0] && s[1] == x[1]; } else { assert s[1] == c; }
    }
    if HasDrivePrefix(p, x) {
      assert s[..2] == x[..2];
    }
    var r := AfterPrefix(p, x);
    assert |r| > 0;
    var rs := AfterPrefix(p, s);
    assert rs == r + [c] + y;
    assert rs[0] == r[0];
    assert HasRoot(p, s) == HasRoot(p, x);
    assert LeadingCurDir(p, s) == LeadingCurDir(p, x) by {
      if |r| == 1 { assert rs[1] == c; } else { assert rs[1] == r[1]; }
    }
    if HasRoot(p, x) {
      assert rs[1..] == r[1..] + [c] + y;
    }
  }

  /** The heart of `Push`: joining `x`, a separator and a path of `Normal` components gives
      the components of `x` followed by those of the path. */
  lemma ComponentsConcat(p: Platform, x: string, c: char, y: string)
    requires IsSeparator(p, c) && |x| > 0 && !(HasDrivePrefix(p, x) && |x| == 2)
    requires AllNormal(Components(p, y))
    ensures Components(p, x + [c] + y) == Components(p, x) + Components(p, y)
  {
    NoHead(p, y);
    HeadConcat(p, x, c, y);
    AppendBodyComponents(p, x + [c] + y, x, c, y);
  }

  /** `s` has the head of `x` and the body of `x`, a separator and `y`, where `y` is all body. */
  lemma AppendBodyComponents(p: Platform, s: string, x: string, c: char, y: string)
    requires IsSeparator(p, c) && Head(p, y) == [] && Body(p, y) == y
    requires Head(p, s) == Head(p, x) && Body(p, s) == Body(p, x) + [c] + y
    ensures Components(p, s) == Components(p, x) + Components(p, y)
  {
    var b := Body(p, x);
    SplitConcat(p, b, c, y);
    BodyComponentsConcat(Split(p, b), Split(p, y));
    calc {
      Components(p, s);
      Head(p, x) + BodyComponents(Split(p, b) + Split(p, y));
      Head(p, x) + (BodyComponents(Split(p, b)) + BodyComponents(Split(p, y)));
      { Associative(Head(p, x), BodyComponents(Split(p, b)), BodyComponents(Split(p, y))); }
      Components(p, x) + BodyComponents(Split(p, y));
      { AllBody(p, y); }
      Components(p, x) + Components(p, y);
    }
  }

  lemma AllBody(p: Platform, y: string)
    requires Head(p, y) == [] && Body(p, y) == y
    ensures Components(p, y) == BodyComponents(Split(p, y))
  {
    assert [] + BodyComponents(Split(p, y)) == BodyComponents(Split(p, y));
  }

  /** `s` has the head of `x`, which has no body, and the body `y`, which is all body. */
  lemma SpliceComponents(p: Platform, s: string, x: string, y: string)
    requires Head(p, y) == [] && Body(p, y) == y
    requires Head(p, s) == Head(p, x) && Body(p, x) == "" && Body(p, s) == y
    ensures Components(p, s) == Components(p, x) + Components(p, y)
  {
    assert Split(p, "") == [""];
    assert BodyComponents([""]) == [];
    assert Components(p, x) == Head(p, x) + [];
    assert Head(p, x) + [] == Head(p, x);
    AllBody(p, y);
  }

  lemma Associative<T>(a: seq<T>, b: seq<T>, c: seq<T>)
    ensures a + (b + c) == (a + b) + c
  {
  }

  /** A trailing separator adds no component. */
  lemma TrailingSeparator(p: Platform, x: string, c: char)
    requires IsSeparator(p, c) && |x| > 0 && !(HasDrivePrefix(p, x) && |x| == 2)
    ensures Components(p, x + [c]) == Components(p, x)
  {
    var e: string := [];
    EmptyComponents(p);
    ComponentsConcat(p, x, c, e);
    assert x + [c] + e == x + [c];
    assert Components(p, x) + [] == Components(p, x);
  }

  /** A trailing separator changes neither the prefix nor the root. */
  lemma TrailingFlags(p: Platform, x: string, c: char)
    requires IsSeparator(p, c) && |x| > 0 && !(HasDrivePrefix(p, x) && |x| == 2)
    ensures HasDrivePrefix(p, x + [c]) == HasDrivePrefix(p, x) && HasRoot(p, x + [c]) == HasRoot(p, x)
  {
    var s := x + [c];
    assert |x| >= 2 ==> s[0] == x[0] && s[1] == x[1];
    assert |x| == 1 ==> s[1] == c;
    assert AfterPrefix(p, s) == AfterPrefix(p, x) + [c];
  }

  lemma EmptyComponents(p: Platform)
    ensures Components(p, "") == []
  {
    assert Split(p, "") == [""];
    assert BodyComponents([""]) == [];
  }

  lemma RootedHead(p: Platform, c: char, y: string)
    requires IsSeparator(p, c)
    ensures Head(p, [c] + y) == [RootDir] && Body(p, [c] + y) == y
  {
    var s := [c] + y;
    assert s[0] == c;
    assert AfterPrefix(p, s) == s;
    assert s[1..] == y;
  }

  /** A lone separator followed by `y`. */
  lemma RootConcat(p: Platform, c: char, y: string)
    requires IsSeparator(p, c) && AllNormal(Components(p, y))
    ensures Components(p, [c] + y) == Components(p, [c]) + Components(p, y)
  {
    NoHead(p, y);
    RootedHead(p, c, y);
    RootedHead(p, c, "");
    assert [c] + "" == [c];
    SpliceComponents(p, [c] + y, [c], y);
  }

  lemma DriveHead(p: Platform, x: string, y: string)
    requires HasDrivePrefix(p, x) && |x| == 2
    requires !HasDrivePrefix(p, y) && !HasRoot(p, y) && !LeadingCurDir(p, y) && Body(p, y) == y
    ensures Head(p, x + y) == [Prefix(x)] && Body(p, x + y) == y
  {
    var s := x + y;
    DriveThen(p, x, y);
    assert AfterPrefix(p, y) == y by {
      assert y[0..] == y;
    }
    assert HasRoot(p, s) == HasRoot(p, y);
    assert LeadingCurDir(p, s) == LeadingCurDir(p, y);
    assert Head(p, s) == [Prefix(x)] + [] + [];
  }

  /** A bare drive followed by `y` has that drive as its prefix and `y` after it. */
  lemma DriveThen(p: Platform, x: string, y: string)
    requires HasDrivePrefix(p, x) && |x| == 2
    ensures HasDrivePrefix(p, x + y) && (x + y)[..2] == x && AfterPrefix(p, x + y) == y
  {
    var s := x + y;
    assert s[0] == x[0] && s[1] == x[1];
    assert s[..2] == x;
    assert s[2..] == y;
  }

  lemma DriveRootHead(p: Platform, x: string, y: string)
    requires HasDrivePrefix(p, x) && |x| == 3 && IsSeparator(p, x[2])
    ensures Head(p, x + y) == [Prefix(x[..2]), RootDir] && Body(p, x + y) == y
  {
    var s := x + y;
    assert s[0] == x[0] && s[1] == x[1];
    assert s[..2] == x[..2];
    assert s[2..] == [x[2]] + y;
    assert s[3..] == y;
  }

  lemma DriveAlone(p: Platform, x: string)
    requires HasDrivePrefix(p, x) && |x| == 2
    ensures Head(p, x) == [Prefix(x)] && Body(p, x) == ""
  {
    assert x[..2] == x;
  }

  lemma DriveRootAlone(p: Platform, x: string)
    requires HasDrivePrefix(p, x) && |x| == 3 && IsSeparator(p, x[2])
    ensures Head(p, x) == [Prefix(x[..2]), RootDir] && Body(p, x) == ""
  {
    assert x[2..] == [x[2]];
  }

  /** A bare drive followed by `y`. */
  lemma DriveConcat(p: Platform, x: string, y: string)
    requires AllNormal(Components(p, y))
    requires HasDrivePrefix(p, x) && |x| == 2
    ensures Components(p, x + y) == Components(p, x) + Components(p, y)
  {
    NoHead(p, y);
    DriveHead(p, x, y);
    DriveAlone(p, x);
    SpliceComponents(p, x + y, x, y);
  }

  /** A drive and its root followed by `y`. */
  lemma DriveRootConcat(p: Platform, x: string, y: string)
    requires AllNormal(Components(p, y))
    requires HasDrivePrefix(p, x) && |x| == 3 && IsSeparator(p, x[2])
    ensures Components(p, x + y) == Components(p, x) + Components(p, y)
  {
    NoHead(p, y);
    DriveRootHead(p, x, y);
    DriveRootAlone(p, x);
    SpliceComponents(p, x + y, x, y);
  }

  /** `push` of a path made of `Normal` components appends exactly those components. */
  lemma PushComponents(p: Platform, x: string, y: string)
    requires AllNormal(Components(p, y))
    ensures Components(p, Push(p, x, y)) == Components(p, x) + Components(p, y)
  {
    NoHead(p, y);
    PushRelative(p, x, y);
    if NeedsSeparator(p, x) {
      ComponentsConcat(p, x, MainSeparator(p), y);
    } else if x == [] {
      EmptyComponents(p);
      assert x + y == y;
    } else if HasDrivePrefix(p, x) && |x| == 2 {
      DriveConcat(p, x, y);
    } else {
      SeparatorEndedConcat(p, x, y);
    }
  }

  /** `push` of a path with no prefix, root or leading `.` appends it. */
  lemma PushRelative(p: Platform, x: string, y: string)
    requires !HasDrivePrefix(p, y) && !HasRoot(p, y)
    ensures Push(p, x, y) == if NeedsSeparator(p, x) then x + [MainSeparator(p)] + y else x + y
  {
  }

  /** Appending a path made of `Normal` components to one that ends in a separator. */
  lemma SeparatorEndedConcat(p: Platform, x: string, y: string)
    requires |x| > 0 && IsSeparator(p, x[|x| - 1]) && AllNormal(Components(p, y))
    ensures Components(p, x + y) == Components(p, x) + Components(p, y)
  {
    var x' := x[..|x| - 1];
    var c := x[|x| - 1];
    assert x == x' + [c];
    assert x + y == x' + [c] + y;
    if x' == [] {
      RootConcat(p, c, y);
    } else if HasDrivePrefix(p, x') && |x'| == 2 {
      assert x[0] == x'[0] && x[1] == x'[1];
      DriveRootConcat(p, x, y);
    } else {
      ComponentsConcat(p, x', c, y);
      TrailingSeparator(p, x', c);
    }
  }

  /** `push` of a path made of `Normal` components keeps an absolute path absolute. */
  lemma PushKeepsAbsolute(p: Platform, x: string, y: string)
    requires IsAbsolute(p, x) && AllNormal(Components(p, y))
    ensures IsAbsolute(p, Push(p, x, y))
  {
    NoHead(p, y);
    var s := Push(p, x, y);
    assert s[..|x|] == x;
    assert s[0] == x[0];
    if p == Windows {
      assert s[1] == x[1] && s[2] == x[2];
    }
  }

  /** A plain name is one `Normal` body component. */
  lemma PlainBody(p: Platform, n: string)
    requires IsPlainName(p, n)
    ensures BodyComponents(Split(p, n)) == [Normal(n)]
  {
    SplitPlain(p, n);
    assert BodyComponents([n]) == Classify(n) + BodyComponents([]);
  }

  /** Appending a separator and a plain name appends one `Normal` body component. */
  lemma AppendPlainBody(p: Platform, j: string, c: char, n: string)
    requires IsSeparator(p, c) && IsPlainName(p, n)
    ensures BodyComponents(Split(p, j + [c] + n)) == BodyComponents(Split(p, j)) + [Normal(n)]
  {
    SplitConcat(p, j, c, n);
    PlainBody(p, n);
    BodyComponentsConcat(Split(p, j), Split(p, n));
  }

  /** The body of a joined list of plain names reads back as those names. */
  lemma {:induction false} JoinWithBody(p: Platform, names: seq<string>, c: char)
    requires IsSeparator(p, c)
    requires forall i :: 0 <= i < |names| ==> IsPlainName(p, names[i])
    ensures BodyComponents(Split(p, JoinWith(names, c))) == Normals(names)
    decreases |names|
  {
    if |names| == 1 {
      PlainBody(p, names[0]);
      assert Normals(names) == [Normal(names[0])];
    } else if |names| > 1 {
      var init := names[..|names| - 1];
      var last := names[|names| - 1];
      var j := JoinWith(init, c);
      assert JoinWith(names, c) == j + [c] + last;
      JoinWithBody(p, init, c);
      AppendPlainBody(p, j, c, last);
      NormalsSnoc(names);
    }
  }

  lemma {:induction false} JoinWithStart(names: seq<string>, sep: char)
    requires |names| > 0 && forall i :: 0 <= i < |names| ==> names[i] != ""
    ensures |JoinWith(names, sep)| >= |names[0]|
    ensures |names| > 1 ==> |JoinWith(names, sep)| > |names[0]|
    ensures JoinWith(names, sep)[..|names[0]|] == names[0]
    ensures |names| > 1 ==> JoinWith(names, sep)[|names[0]|] == sep
    decreases |names|
  {
    if |names| > 1 {
      var init := names[..|names| - 1];
      JoinWithStart(init, sep);
      var j := JoinWith(init, sep);
      var s := JoinWith(names, sep);
      assert s == j + [sep] + names[|names| - 1];
      assert s[..|j|] == j;
      if |init| == 1 {
        assert j == names[0];
      } else {
        assert s[|names[0]|] == j[|names[0]|];
      }
    }
  }

  lemma {:induction false} JoinWithEnd(names: seq<string>, sep: char)
    requires |names| > 0 && forall i :: 0 <= i < |names| ==> names[i] != ""
    ensures |JoinWith(names, sep)| > 0
    ensures JoinWith(names, sep)[|JoinWith(names, sep)| - 1] == names[|names| - 1][|names[|names| - 1]| - 1]
  {
  }

  /** Joining plain parts with any separator and parsing again gives back the parts. */
  lemma ComponentsOfJoin(p: Platform, names: seq<string>, c: char)
    requires IsSeparator(p, c) && ValidParts(p, names)
    ensures Components(p, JoinWith(names, c)) == Normals(names)
  {
    var s := JoinWith(names, c);
    JoinWithBody(p, names, c);
    if |names| > 0 {
      JoinWithStart(names, c);
      var n := names[0];
      assert s[0] == n[0];
      if |n| >= 2 {
        assert s[1] == n[1];
      } else if |s| >= 2 {
        assert s[1] == c;
      }
      assert Head(p, s) == [];
    }
  }

  /** A path whose components are all `Normal` names them with plain names, the first of
      which cannot be mistaken for a drive. */
  lemma NormalComponentsValid(p: Platform, s: string, names: seq<string>)
    requires Components(p, s) == Normals(names)
    ensures ValidParts(p, names)
  {
    NoHead(p, s);
    NormalNamesPlain(p, s, names);
    if |names| > 0 {
      FirstNameNotDrive(p, s, names);
    }
  }

  /** The names of a body's `Normal` components hold no separator. */
  lemma NormalNamesPlain(p: Platform, s: string, names: seq<string>)
    requires BodyComponents(Split(p, s)) == Normals(names)
    ensures forall i :: 0 <= i < |names| ==> IsPlainName(p, names[i])
  {
    SplitPiecesPlain(p, s);
    BodyComponentsPlain(p, Split(p, s));
    forall i | 0 <= i < |names| ensures IsPlainName(p, names[i]) {
      assert BodyComponents(Split(p, s))[i] == Normal(names[i]);
    }
  }

  /** The first name of a path of `Normal` components is where the path starts, so it is
      not a drive. */
  lemma FirstNameNotDrive(p: Platform, s: string, names: seq<string>)
    requires BodyComponents(Split(p, s)) == Normals(names) && |names| > 0
    requires !HasDrivePrefix(p, s) && !HasRoot(p, s) && !LeadingCurDir(p, s)
    ensures !HasDrivePrefix(p, names[0])
  {
    var pieces := Split(p, s);
    var f := pieces[0];
    EmptyBody(p);
    assert s != [];
    FirstPiece(p, s);
    assert AfterPrefix(p, s) == s;
    assert f == "" ==> HasRoot(p, s);
    assert f == "." ==> LeadingCurDir(p, s);
    FirstBodyName(pieces, names);
    assert |f| >= 2 ==> f[0] == s[0] && f[1] == s[1];
  }

  lemma EmptyBody(p: Platform)
    ensures BodyComponents(Split(p, "")) == []
  {
    assert Split(p, "") == [""];
    assert BodyComponents([""]) == [];
  }

  /** When the first piece is a name, it is the first `Normal` name. */
  lemma FirstBodyName(pieces: seq<string>, names: seq<string>)
    requires BodyComponents(pieces) == Normals(names) && |names| > 0 && |pieces| > 0
    requires pieces[0] != "" && pieces[0] != "."
    ensures names[0] == pieces[0]
  {
    var f := pieces[0];
    assert BodyComponents(pieces) == Classify(f) + BodyComponents(pieces[1..]);
    assert BodyComponents(pieces)[0] == Normal(names[0]);
    assert f != ".." ==> Classify(f) == [Normal(f)];
  }

  /** Pushing a plain name appends it, after a separator when one is needed. */
  lemma PushPlain(p: Platform, base: string, n: string)
    requires IsPlainName(p, n) && !HasDrivePrefix(p, n)
    ensures Push(p, base, n) == if NeedsSeparator(p, base) then base + [MainSeparator(p)] + n else base + n
  {
    assert n[0..] == n;
    assert !IsSeparator(p, n[0]);
  }

  /** The buffer `base` becomes before the first name is appended. */
  function Lead(p: Platform, base: string): string {
    if NeedsSeparator(p, base) then base + [MainSeparator(p)] else base
  }

  /** Once a plain name has been appended, the next push needs a separator. */
  lemma LeadJoinNeedsSeparator(p: Platform, base: string, names: seq<string>)
    requires |names| > 0 && forall i :: 0 <= i < |names| ==> IsPlainName(p, names[i])
    requires !HasDrivePrefix(p, names[0])
    ensures NeedsSeparator(p, Lead(p, base) + JoinWith(names, MainSeparator(p)))
  {
    var sep := MainSeparator(p);
    var j := JoinWith(names, sep);
    JoinWithEnd(names, sep);
    JoinWithStart(names, sep);
    var n0 := names[0];
    assert |n0| >= 2 ==> j[..2] == n0[..2];
    assert |j| == 2 ==> |names| == 1 && j == n0;
    LeadShape(p, base);
    ConcatNeedsSeparator(p, Lead(p, base), j);
  }

  /** A one-character lead is a lone separator. */
  lemma LeadShape(p: Platform, base: string)
    ensures |Lead(p, base)| == 1 ==> IsSeparator(p, Lead(p, base)[0])
  {
  }

  /** Appending text that ends in a plain character to a lead that is empty, a lone
      separator or at least two characters long gives a buffer that needs a separator. */
  lemma ConcatNeedsSeparator(p: Platform, l: string, j: string)
    requires |j| > 0 && !IsSeparator(p, j[|j| - 1])
    requires |l| == 1 ==> IsSeparator(p, l[0])
    requires |l| == 0 && |j| == 2 ==> !HasDrivePrefix(p, j)
    ensures NeedsSeparator(p, l + j)
  {
    var acc := l + j;
    assert acc[|acc| - 1] == j[|j| - 1];
    if |l| == 1 {
      assert acc[0] == l[0];
    } else if |l| == 0 {
      assert acc == j;
    }
  }

  /** `Extend` appends plain parts joined by the platform separator. */
  lemma {:induction false} ExtendPlain(p: Platform, base: string, names: seq<string>)
    requires forall i :: 0 <= i < |names| ==> IsPlainName(p, names[i]) && !HasDrivePrefix(p, names[i])
    ensures Extend(p, base, names) ==
      if names == [] then base else Lead(p, base) + JoinWith(names, MainSeparator(p))
    decreases |names|
  {
    if names != [] {
      var sep := MainSeparator(p);
      var init := names[..|names| - 1];
      var last := names[|names| - 1];
      ExtendPlain(p, base, init);
      PushPlain(p, Extend(p, base, init), last);
      if init == [] {
        assert JoinWith(names, sep) == last;
      } else {
        var l := Lead(p, base);
        var j := JoinWith(init, sep);
        LeadJoinNeedsSeparator(p, base, init);
        assert Extend(p, base, names) == l + j + [sep] + last;
        assert JoinWith(names, sep) == j + [sep] + last;
        Associative(l, j, [sep]);
        Associative(l, j + [sep], last);
      }
    }
  }

  /** On Windows, `\` and `/` are interchangeable in splitting. */
  lemma {:induction false} SplitSlashed(s: string)
    ensures Split(Windows, s) == Split(Windows, Slashed(s))
    decreases |s|
  {
    if s != [] {
      assert Slashed(s)[1..] == Slashed(s[1..]);
      SplitSlashed(s[1..]);
    }
  }

  /** On Windows, writing every `\` as `/` does not change the components. */
  lemma ComponentsSlashed(s: string)
    ensures Components(Windows, s) == Components(Windows, Slashed(s))
    ensures IsAbsolute(Windows, s) == IsAbsolute(Windows, Slashed(s))
  {
    var t := Slashed(s);
    assert HasDrivePrefix(Windows, s) == HasDrivePrefix(Windows, t);
    if HasDrivePrefix(Windows, s) {
      assert t[..2] == s[..2];
    }
    assert AfterPrefix(Windows, t) == Slashed(AfterPrefix(Windows, s));
    assert HasRoot(Windows, s) == HasRoot(Windows, t);
    assert LeadingCurDir(Windows, s) == LeadingCurDir(Windows, t);
    var b := Body(Windows, s);
    assert Body(Windows, t) == Slashed(b);
    SplitSlashed(b);
  }

  // ---------------------------------------------------------------------------------------
  // Lemmas about pushing and extending

  /** A plain name that is not a drive is a single `Normal` component. */
  lemma PlainComponents(p: Platform, n: string)
    requires IsPlainName(p, n) && !HasDrivePrefix(p, n)
    ensures Components(p, n) == [Normal(n)]
  {
    ComponentsOfJoin(p, [n], '/');
    assert Normals([n]) == [Normal(n)];
  }

  lemma PushPlainComponents(p: Platform, acc: string, n: string)
    requires IsPlainName(p, n) && !HasDrivePrefix(p, n)
    ensures Components(p, Push(p, acc, n)) == Components(p, acc) + [Normal(n)]
  {
    PlainComponents(p, n);
    PushComponents(p, acc, n);
  }

  lemma ExtendLastComponents(p: Platform, base: string, names: seq<string>)
    requires names != [] && IsPlainName(p, names[|names| - 1]) && !HasDrivePrefix(p, names[|names| - 1])
    ensures Components(p, Extend(p, base, names))
         == Components(p, Extend(p, base, names[..|names| - 1])) + [Normal(names[|names| - 1])]
  {
    PushPlainComponents(p, Extend(p, base, names[..|names| - 1]), names[|names| - 1]);
  }

  lemma NormalsSnoc(names: seq<string>)
    requires names != []
    ensures Normals(names) == Normals(names[..|names| - 1]) + [Normal(names[|names| - 1])]
  {
  }

  /** `extend` with plain names, none a drive, appends exactly their components. */
  lemma {:induction false} ExtendComponents(p: Platform, base: string, names: seq<string>)
    requires forall i :: 0 <= i < |names| ==> IsPlainName(p, names[i]) && !HasDrivePrefix(p, names[i])
    ensures Components(p, Extend(p, base, names)) == Components(p, base) + Normals(names)
    decreases |names|
  {
    if names != [] {
      var init := names[..|names| - 1];
      var last := names[|names| - 1];
      ExtendComponents(p, base, init);
      ExtendLastComponents(p, base, names);
      NormalsSnoc(names);
      Associative(Components(p, base), Normals(init), [Normal(last)]);
    }
  }

  /** Joining with the empty path names the same path: `to.join("") == to`. */
  lemma PushEmpty(p: Platform, base: string)
    ensures SamePath(p, Push(p, base, ""), base)
  {
    if NeedsSeparator(p, base) {
      TrailingSeparator(p, base, MainSeparator(p));
      assert base + [MainSeparator(p)] + "" == base + [MainSeparator(p)];
    } else {
      assert base + "" == base;
    }
  }

  /** Splitting a join of separator-free names gives the names back. */
  lemma {:induction false} JoinSplit(p: Platform, names: seq<string>, c: char)
    requires IsSeparator(p, c) && |names| > 0
    requires forall i :: 0 <= i < |names| ==> IsPlainName(p, names[i])
    ensures Split(p, JoinWith(names, c)) == names
    decreases |names|
  {
    var last := names[|names| - 1];
    SplitPlain(p, last);
    if |names| > 1 {
      var init := names[..|names| - 1];
      JoinSplit(p, init, c);
      SplitConcat(p, JoinWith(init, c), c, last);
      assert init + [last] == names;
    }
  }

  lemma KeysConcat(a: seq<Component>, b: seq<Component>)
    ensures Keys(a + b) == Keys(a) + Keys(b)
  {
  }

  /** On Windows, `c:\\out` and `C:\\out` are the same path although their texts differ. */
  lemma DriveLetterCase()
    ensures SamePath(Windows, "c:\\out", "C:\\out")
    ensures Components(Windows, "c:\\out") != Components(Windows, "C:\\out")
  {
    var lower, upper := "c:\\out", "C:\\out";
    DriveRootOut(lower);
    DriveRootOut(upper);
    assert lower[..2][0] != upper[..2][0];
    assert UpperCase(lower[0]) == UpperCase(upper[0]);
  }

  /** After a drive prefix a leading `.` is dropped like any other: `C:./a` is the drive
      and `a`, and `C:.` and `C:./` are the same path as `C:`. */
  lemma DriveCurDir(d: char, c: char, n: string)
    requires IsDriveLetter(d) && IsSeparator(Windows, c) && IsPlainName(Windows, n)
    ensures Components(Windows, [d, ':', '.', c] + n) == [Prefix([d, ':']), Normal(n)]
    ensures Components(Windows, [d, ':', '.']) == Components(Windows, [d, ':', '.', c])
         == Components(Windows, [d, ':']) == [Prefix([d, ':'])]
    ensures SamePath(Windows, [d, ':', '.'], [d, ':']) && SamePath(Windows, [d, ':', '.', c], [d, ':'])
  {
    DriveDotName(d, c, n);
    DriveDot(d, c);
  }

  lemma DriveDotName(d: char, c: char, n: string)
    requires IsDriveLetter(d) && IsSeparator(Windows, c) && IsPlainName(Windows, n)
    ensures Components(Windows, [d, ':', '.', c] + n) == [Prefix([d, ':']), Normal(n)]
  {
    var x, y := [d, ':'], ['.', c] + n;
    assert [d, ':', '.', c] + n == x + y;
    DriveThen(Windows, x, y);
    assert Head(Windows, x + y) == [Prefix(x)] && Body(Windows, x + y) == y;
    assert Split(Windows, y) == [".", n] by {
      SplitUnfold(Windows, y);
      assert y[0] == '.' && y[1..] == [c] + n;
      SplitUnfold(Windows, [c] + n);
      assert ([c] + n)[1..] == n;
      SplitPlain(Windows, n);
      assert Split(Windows, [c] + n) == [""] + [n];
      assert ['.'] + "" == ".";
    }
    assert BodyComponents([".", n]) == [Normal(n)] by {
      assert [".", n][1..] == [n];
      assert BodyComponents([n]) == Classify(n) + BodyComponents([]);
    }
  }

  lemma DriveDot(d: char, c: char)
    requires IsDriveLetter(d) && IsSeparator(Windows, c)
    ensures Components(Windows, [d, ':', '.']) == Components(Windows, [d, ':', '.', c])
         == Components(Windows, [d, ':']) == [Prefix([d, ':'])]
  {
    var dot, dotSep, drive := [d, ':', '.'], [d, ':', '.', c], [d, ':'];
    assert dot[..2] == dotSep[..2] == drive[..2] == [d, ':'];
    assert Head(Windows, dot) == Head(Windows, dotSep) == Head(Windows, drive) == [Prefix([d, ':'])];
    assert Body(Windows, dot) == ".";
    SplitPlain(Windows, ".");
    assert BodyComponents(["."]) == Classify(".") + BodyComponents([]);
    assert Body(Windows, dotSep) == ['.', c];
    assert Split(Windows, ['.', c]) == [".", ""] by {
      assert ['.', c][1..] == [c] && [c][1..] == "";
      assert Split(Windows, [c]) == [""] + [""];
      assert ['.'] + "" == ".";
    }
    assert BodyComponents([".", ""]) == [] by {
      assert [".", ""][1..] == [""];
      assert BodyComponents([""]) == Classify("") + BodyComponents([]);
    }
    assert Body(Windows, drive) == "";
    assert Split(Windows, "") == [""];
    assert BodyComponents([""]) == Classify("") + BodyComponents([]);
  }

  /** The components of a drive, a root and the name `out`, and how `==` sees them. */
  lemma DriveRootOut(s: string)
    requires |s| == 6 && IsDriveLetter(s[0]) && s[1] == ':' && s[2] == '\\' && s[3..] == "out"
    ensures Components(Windows, s) == [Prefix(s[..2]), RootDir, Normal("out")]
    ensures Keys(Components(Windows, s)) == [Prefix([UpperCase(s[0]), ':']), RootDir, Normal("out")]
  {
    assert AfterPrefix(Windows, s) == s[2..];
    assert Body(Windows, s) == "out";
    SplitPlain(Windows, "out");
    assert BodyComponents(["out"]) == Classify("out") + BodyComponents([]);
    assert Key(Prefix(s[..2])) == Prefix([UpperCase(s[0]), ':']) by {
      assert s[..2][1..] == [':'];
    }
  }

  /** Every `Normal` component of a path is a plain name: it comes from a body piece. */
  lemma ComponentsNormalsPlain(p: Platform, s: string)
    ensures forall k :: 0 <= k < |Components(p, s)| && Components(p, s)[k].Normal? ==>
      IsPlainName(p, Components(p, s)[k].name)
  {
    var h := Head(p, s);
    var pieces := Split(p, Body(p, s));
    SplitPiecesPlain(p, Body(p, s));
    BodyComponentsPlain(p, pieces);
    assert forall k :: 0 <= k < |h| ==> !h[k].Normal?;
    forall k | 0 <= k < |Components(p, s)| && Components(p, s)[k].Normal?
      ensures IsPlainName(p, Components(p, s)[k].name)
    {
      if k >= |h| {
        assert Components(p, s)[k] == BodyComponents(pieces)[k - |h|];
      }
    }
  }

  /** `Path::parent` is `Some` exactly when the last component is not a prefix or a root. */
  predicate HasParent(p: Platform, s: string) {
    var cs := Components(p, s);
    |cs| > 0 && !cs[|cs| - 1].Prefix? && !cs[|cs| - 1].RootDir?
  }
}
