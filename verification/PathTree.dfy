/** Splitting a requested location into directory and file name, and creating the directories below the
    document root, in a file system of directories with a working directory. */
module PathTree {
  import opened CText

  // ----- splitting the request -----

  /** The position of the last slash. */
  function LastSlash(s: string): (i: nat)
    requires s != "" && s[0] == '/'
    ensures i < |s| && s[i] == '/' && forall k | i < k < |s| :: s[k] != '/'
  {
    if s[|s| - 1] == '/' then |s| - 1 else LastSlash(s[..|s| - 1])
  }

  function Directory(request: string): string
    requires request != "" && request[0] == '/'
  {
    request[..LastSlash(request) + 1]
  }

  function FileName(request: string): string
    requires request != "" && request[0] == '/'
  {
    var q := Cspn(request, {'?'});
    request[..q][LastSlash(request[..q]) + 1..]
  }

  /** Walks back from `end` to the nearest slash. */
  method BackToSlash(s: string, end: nat) returns (i: nat)
    requires 0 < end <= |s| && s[0] == '/'
    ensures i < end && i == LastSlash(s[..end])
  {
    i := end - 1;
    while s[i] != '/'
      invariant i < end && forall k | i < k < end :: s[k] != '/'
      decreases i
    {
      i := i - 1;
    }
    assert s[..end][i] == '/';
  }

  /** extract_dir_and_filename_from_request. */
  method Extract(request: string) returns (path: string, filename: string)
    requires request != "" && request[0] == '/'
    ensures path == Directory(request) && filename == FileName(request)
  {
    var q := Cspn(request, {'?'});
    var begin := BackToSlash(request, q);
    filename := request[begin + 1..q];
    assert filename == request[..q][begin + 1..];
    begin := BackToSlash(request, |request|);
    assert request[..|request|] == request;
    path := request[..begin + 1];
  }

  /** Of a last slash `i` before `q` and a last slash `j` of all. */
  lemma PartsAt(request: string, q: nat, i: nat, j: nat)
    requires i < q <= |request| && request[i] == '/' && forall k | i < k < q :: request[k] != '/'
    requires j < |request| && request[j] == '/' && forall k | j < k < |request| :: request[k] != '/'
    ensures request[..j + 1] + request[..q][i + 1..] == request[..q] <==> j < q
  {
    if j < q {
      assert i == j;
      assert request[..q][i + 1..] == request[i + 1..q];
      assert request[..i + 1] + request[i + 1..q] == request[..q];
    } else {
      assert |request[..j + 1]| > |request[..q]|;
    }
  }

  lemma SlashBehind(request: string, q: nat, j: nat)
    requires q <= |request|
    requires j < |request| && request[j] == '/' && forall k | j < k < |request| :: request[k] != '/'
    ensures '/' !in request[q..] <==> j < q
  {
    if j >= q {
      assert request[q..][j - q] == '/';
    } else {
      assert forall k | 0 <= k < |request[q..]| :: request[q..][k] == request[q + k];
    }
  }

  lemma FileNameHasNoSlash(request: string)
    requires request != "" && request[0] == '/'
    ensures '/' !in FileName(request)
  {
    var q := Cspn(request, {'?'});
    var i := LastSlash(request[..q]);
    assert forall k | 0 <= k < |FileName(request)| :: FileName(request)[k] == request[..q][i + 1 + k];
  }

  lemma PartsIff(request: string, q: nat)
    requires 0 < q <= |request| && request[0] == '/'
    ensures request[..LastSlash(request) + 1] + request[..q][LastSlash(request[..q]) + 1..] == request[..q]
            <==> '/' !in request[q..]
  {
    var i, j := LastSlash(request[..q]), LastSlash(request);
    SlashBefore(request, q);
    PartsAt(request, q, i, j);
    SlashBehind(request, q, j);
  }

  /** The parts put together are the request up to the question mark exactly when no slash follows it. */
  lemma PartsMakeRequest(request: string)
    requires request != "" && request[0] == '/'
    ensures var q := Cspn(request, {'?'});
            && Directory(request)[|Directory(request)| - 1] == '/' && '/' !in FileName(request)
            && (Directory(request) + FileName(request) == request[..q] <==> '/' !in request[q..])
  {
    PartsIff(request, Cspn(request, {'?'}));
    FileNameHasNoSlash(request);
  }

  lemma SlashBefore(request: string, q: nat)
    requires 0 < q <= |request| && request[0] == '/'
    ensures var i := LastSlash(request[..q]);
            i < q && request[i] == '/' && forall k | i < k < q :: request[k] != '/'
  {
    assert forall k | 0 <= k < q :: request[..q][k] == request[k];
  }

  // ----- the file system -----

  type Path = seq<string>

  /** Where one name leads from `cwd`, whether or not there is such a directory. */
  function Go(cwd: Path, name: string): Path {
    if name == "." then cwd
    else if name == ".." then (if cwd == [] then [] else cwd[..|cwd| - 1])
    else cwd + [name]
  }

  /** chdir by one name from `cwd`: the directory reached, if it exists. */
  function Enter(dirs: set<Path>, cwd: Path, name: string): Option<Path> {
    if name != "" && Go(cwd, name) in dirs then Some(Go(cwd, name)) else None
  }

  /** The directories that mkdir will refuse to make, and those that chown will refuse to give away once made. */
  datatype Limits = Limits(noMake: set<Path>, noOwn: set<Path>)

  class FileSystem {
    var dirs: set<Path>
    var cwd: Path
    const limits: Limits

    constructor (dirs: set<Path>, cwd: Path, limits: Limits)
      ensures this.dirs == dirs && this.cwd == cwd && this.limits == limits
    {
      this.dirs, this.cwd, this.limits := dirs, cwd, limits;
    }

    method Chdir(name: string) returns (ok: bool)
      modifies this`cwd
      ensures ok <==> Enter(dirs, old(cwd), name).Some?
      ensures cwd == if ok then Enter(dirs, old(cwd), name).value else old(cwd)
    {
      var there := Enter(dirs, cwd, name);
      if there.Some? {
        cwd := there.value;
      }
      return there.Some?;
    }

    method ChdirTo(path: Path) returns (ok: bool)
      modifies this`cwd
      ensures ok <==> path in dirs
      ensures cwd == if ok then path else old(cwd)
    {
      if path in dirs {
        cwd := path;
        return true;
      }
      return false;
    }

    /** mkdir, which fails on an empty or existing name, and chown. */
    method MakeDirectory(name: string) returns (ok: bool)
      modifies this`dirs
      ensures var there := cwd + [name];
              var made := name !in {"", ".", ".."} && there !in old(dirs) + limits.noMake;
              && dirs == old(dirs) + (if made then {there} else {})
              && (ok <==> made && there !in limits.noOwn)
    {
      var there := cwd + [name];
      if name in {"", ".", ".."} || there in dirs || there in limits.noMake {
        return false;
      }
      dirs := dirs + {there};
      return there !in limits.noOwn;
    }
  }

  // ----- create_path_tree -----

  /** strsep on '/': the pieces between slashes, empty ones included. */
  function Components(s: string): (r: seq<string>)
    ensures r != []
    decreases |s|
  {
    var n := Cspn(s, {'/'});
    if n == |s| then [s] else [s[..n]] + Components(s[n + 1..])
  }

  /** The names the do-while loop visits: all but the one behind the last slash, but at least one. */
  function Visited(path: string): seq<string> {
    var c := Components(path);
    if |c| == 1 then c else c[..|c| - 1]
  }

  datatype Place = Place(dirs: set<Path>, cwd: Path)

  /** Where a walk ends, and whether it ends well. */
  datatype Walked = Walked(place: Place, done: bool)

  /** The walk: a missing directory is made and entered; an empty or blank name that cannot be entered ends the walk;
      a directory that cannot be made or given away fails it. */
  function Walk(p: Place, names: seq<string>, limits: Limits): Walked
    decreases |names|
  {
    if names == [] then Walked(p, true)
    else
      var n, there := names[0], Go(p.cwd, names[0]);
      if Enter(p.dirs, p.cwd, n).Some? then Walk(p.(cwd := there), names[1..], limits)
      else if n == "" || n == " " then Walked(p, true)
      else if n == "." || n == ".." || there in limits.noMake then Walked(p, false)
      else if there in limits.noOwn then Walked(p.(dirs := p.dirs + {there}), false)
      else Walk(Place(p.dirs + {there}, there), names[1..], limits)
  }

  lemma {:induction false} WalkGrows(p: Place, names: seq<string>, limits: Limits)
    ensures p.dirs <= Walk(p, names, limits).place.dirs
    decreases |names|
  {
    if names != [] {
      var there := Go(p.cwd, names[0]);
      WalkGrows(p.(cwd := there), names[1..], limits);
      WalkGrows(Place(p.dirs + {there}, there), names[1..], limits);
    }
  }

  /** create_path_tree, after the leading slash has been skipped. */
  method CreatePathTree(fs: FileSystem, path: string) returns (ok: bool)
    modifies fs
    ensures Walked(Place(fs.dirs, fs.cwd), ok) == Walk(old(Place(fs.dirs, fs.cwd)), Visited(path), fs.limits)
  {
    ghost var goal := Walk(Place(fs.dirs, fs.cwd), Visited(path), fs.limits);
    var rest := Visited(path);
    while rest != []
      invariant Walk(Place(fs.dirs, fs.cwd), rest, fs.limits) == goal
      decreases |rest|
    {
      var name := rest[0];
      var entered := fs.Chdir(name);
      if !entered {
        if name == "" || name == " " {
          break;
        }
        var made := fs.MakeDirectory(name);
        if !made {
          return false;
        }
        entered := fs.Chdir(name);
        if !entered {
          return false;
        }
      }
      rest := rest[1..];
    }
    return true;
  }

  // ----- build_tree -----

  datatype Protocol = Http | Ftp | Other

  const HTTP_BASE_DIR: Path := ["var", "www", "localhost", "htdocs"]
  const FTP_BASE_DIR: Path := ["home", "ftp"]

  function BaseDir(proto: Protocol): Path {
    if proto.Http? then HTTP_BASE_DIR else FTP_BASE_DIR
  }

  datatype Outcome = Built | Skipped | Failed

  /** The names that build_tree walks along for a request. */
  function WalkedNames(request: string): seq<string>
    requires '/' in request
  {
    assert Cspn(request, {'/'}) < |request|;
    Visited(request[Cspn(request, {'/'}) + 1..])
  }

  /** build_tree. After a failed creation the source returns from wherever it stands. */
  method BuildTree(fs: FileSystem, proto: Protocol, request: string) returns (r: Outcome)
    requires fs.cwd in fs.dirs
    modifies fs
    ensures r == Skipped <==>
              || proto.Other? || '/' !in request
              || (proto.Http? && ["var", "www", "localhost", "htdocs"] !in old(fs.dirs))
              || (proto.Ftp? && ["home", "ftp"] !in old(fs.dirs))
    ensures r == Skipped ==> fs.dirs == old(fs.dirs) && fs.cwd == old(fs.cwd)
    ensures r != Skipped ==>
              var w := Walk(Place(old(fs.dirs), BaseDir(proto)), WalkedNames(request), fs.limits);
              && (r == Built <==> w.done)
              && fs.dirs == w.place.dirs
              && fs.cwd == if w.done then old(fs.cwd) else w.place.cwd
    ensures r != Skipped && NoDots(WalkedNames(request)) && !(BaseDir(proto) <= old(fs.cwd)) ==>
              (fs.cwd == old(fs.cwd) <==> !Blocked(old(fs.dirs), BaseDir(proto), WalkedNames(request), fs.limits))
    ensures old(fs.dirs) <= fs.dirs
  {
    if proto.Other? {
      return Skipped;
    }
    var slash := Cspn(request, {'/'});
    if slash == |request| {
      return Skipped;
    }
    assert request[slash] in request;
    var savedCwd := fs.cwd;
    var ok := fs.ChdirTo(BaseDir(proto));
    if !ok {
      return Skipped;
    }
    WalkGrows(Place(fs.dirs, fs.cwd), WalkedNames(request), fs.limits);
    if NoDots(WalkedNames(request)) {
      RestoredIff(Place(fs.dirs, fs.cwd), WalkedNames(request), fs.limits, savedCwd);
    }
    ok := CreatePathTree(fs, request[slash + 1..]);
    if !ok {
      return Failed;
    }
    ok := fs.ChdirTo(savedCwd);
    return Built;
  }

  // ----- what a call makes, and where it ends -----

  /** Where a sequence of names leads. */
  function At(cwd: Path, names: seq<string>): Path
    decreases |names|
  {
    if names == [] then cwd else At(Go(cwd, names[0]), names[1..])
  }

  /** The directories passed on the way. */
  function Places(cwd: Path, names: seq<string>): set<Path> {
    set k: nat | 0 < k <= |names| :: At(cwd, names[..k])
  }

  /** A missing directory, asked for by a name that can be made, that cannot be made or given away. */
  predicate Refused(dirs: set<Path>, there: Path, n: string, limits: Limits) {
    n != "" && n != " " && there !in dirs && (there in limits.noMake || there in limits.noOwn)
  }

  /** The names a walk gets through: up to the first empty name, the first blank name that is no directory or the
      first directory refused. */
  function Passed(dirs: set<Path>, cwd: Path, names: seq<string>, limits: Limits): (k: nat)
    ensures k <= |names|
    decreases |names|
  {
    if names == [] then 0
    else
      var n, there := names[0], Go(cwd, names[0]);
      if n == "" || (n == " " && there !in dirs) || Refused(dirs, there, n, limits) then 0
      else 1 + Passed(dirs, there, names[1..], limits)
  }

  /** The walk comes to a directory that is missing and refused. */
  predicate Blocked(dirs: set<Path>, cwd: Path, names: seq<string>, limits: Limits) {
    var k := Passed(dirs, cwd, names, limits);
    k < |names| && Refused(dirs, At(cwd, names[..k + 1]), names[k], limits)
  }

  /** What a failed walk may leave behind in front of it: a directory made but not given away. */
  function Stranded(dirs: set<Path>, cwd: Path, names: seq<string>, limits: Limits): set<Path> {
    var k := Passed(dirs, cwd, names, limits);
    if Blocked(dirs, cwd, names, limits) && At(cwd, names[..k + 1]) !in limits.noMake then {At(cwd, names[..k + 1])}
    else {}
  }

  /** Directories have non-empty names and existing parents. */
  ghost predicate WellFormed(dirs: set<Path>) {
    forall d, i | d in dirs && 0 <= i < |d| :: d[i] != "" && d[..i] in dirs
  }

  lemma AtStep(cwd: Path, names: seq<string>, k: nat)
    requires 0 < k <= |names|
    ensures At(cwd, names[..k]) == At(Go(cwd, names[0]), names[1..][..k - 1])
  {
    assert names[..k][1..] == names[1..][..k - 1];
  }

  lemma PlacesStep(cwd: Path, names: seq<string>, k: nat)
    requires 0 < k <= |names|
    ensures Places(cwd, names[..k]) == {Go(cwd, names[0])} + Places(Go(cwd, names[0]), names[1..][..k - 1])
  {
    var there, rest := Go(cwd, names[0]), names[1..][..k - 1];
    var a, b := Places(cwd, names[..k]), {there} + Places(there, rest);
    forall j | 0 < j <= k ensures At(cwd, names[..k][..j]) == At(there, rest[..j - 1]) {
      assert names[..k][..j] == names[..j] && rest[..j - 1] == names[1..][..j - 1];
      AtStep(cwd, names, j);
    }
    forall p | p in b ensures p in a {
      if p == there {
        assert At(there, rest[..0]) == there && p == At(cwd, names[..k][..1]);
      } else {
        var j: nat :| 0 < j <= |rest| && p == At(there, rest[..j]);
        assert p == At(cwd, names[..k][..j + 1]);
      }
    }
    forall p | p in a ensures p in b {
      var j: nat :| 0 < j <= k && p == At(cwd, names[..k][..j]);
      assert p == At(there, rest[..j - 1]);
    }
  }

  /** What is said of the rest of a walk after its first name. */
  lemma PassedStep(dirs: set<Path>, cwd: Path, names: seq<string>, limits: Limits)
    requires Passed(dirs, cwd, names, limits) > 0
    ensures var there, rest := Go(cwd, names[0]), names[1..];
            && Passed(dirs, cwd, names, limits) == 1 + Passed(dirs, there, rest, limits)
            && Blocked(dirs, cwd, names, limits) == Blocked(dirs, there, rest, limits)
            && Stranded(dirs, cwd, names, limits) == Stranded(dirs, there, rest, limits)
  {
    var k := Passed(dirs, cwd, names, limits);
    if k < |names| {
      AtStep(cwd, names, k + 1);
    }
  }

  /** A directory that was made on the way, so was not refused and is not called blank, makes no difference. */
  lemma {:induction false} PassedIgnores(dirs: set<Path>, extra: Path, cwd: Path, names: seq<string>, limits: Limits)
    requires extra !in limits.noMake && extra !in limits.noOwn && (extra != [] ==> extra[|extra| - 1] != " ")
    ensures Passed(dirs + {extra}, cwd, names, limits) == Passed(dirs, cwd, names, limits)
    ensures Blocked(dirs + {extra}, cwd, names, limits) == Blocked(dirs, cwd, names, limits)
    ensures Stranded(dirs + {extra}, cwd, names, limits) == Stranded(dirs, cwd, names, limits)
    decreases |names|
  {
    if names != [] {
      var there := Go(cwd, names[0]);
      assert names[0] == " " ==> there[|there| - 1] == " ";
      assert names[0] == " " ==> there != extra;
      assert Refused(dirs + {extra}, there, names[0], limits) == Refused(dirs, there, names[0], limits);
      PassedIgnores(dirs, extra, there, names[1..], limits);
      if Passed(dirs, cwd, names, limits) > 0 {
        PassedStep(dirs, cwd, names, limits);
        PassedStep(dirs + {extra}, cwd, names, limits);
      }
    }
  }

  /** The names can be followed: either there are no `.` and `..`, or every directory has its parents. */
  ghost predicate Followable(p: Place, names: seq<string>) {
    NoDots(names) || (WellFormed(p.dirs) && p.cwd in p.dirs)
  }

  lemma FollowableStep(p: Place, names: seq<string>)
    requires Followable(p, names) && names != [] && names[0] != ""
    ensures var there := Go(p.cwd, names[0]);
            Followable(Place(p.dirs + {there}, there), names[1..]) &&
            (names[0] == "." || names[0] == ".." ==> there in p.dirs)
  {
    var n, there := names[0], Go(p.cwd, names[0]);
    if NoDots(names) {
      assert n in names && forall x | x in names[1..] :: x in names;
    } else if there !in p.dirs {
      forall d, i | d in p.dirs + {there} && 0 <= i < |d| ensures d[i] != "" && d[..i] in p.dirs {
        if d == there {
          assert d[..i] == if i == |p.cwd| then p.cwd else p.cwd[..i];
        }
      }
    } else {
      assert p.dirs + {there} == p.dirs;
    }
  }

  /** A walk adds exactly the directories passed on the names it gets through, and ends there; it fails exactly when
      it is blocked. */
  lemma {:induction false} WalkMakesPlaces(p: Place, names: seq<string>, limits: Limits)
    requires Followable(p, names)
    ensures var k := Passed(p.dirs, p.cwd, names, limits);
            Walk(p, names, limits) ==
            Walked(Place(p.dirs + Places(p.cwd, names[..k]) + Stranded(p.dirs, p.cwd, names, limits),
                         At(p.cwd, names[..k])),
                   !Blocked(p.dirs, p.cwd, names, limits))
    decreases |names|
  {
    var k := Passed(p.dirs, p.cwd, names, limits);
    if k == 0 {
      WalkStops(p, names, limits);
    } else {
      var there := Go(p.cwd, names[0]);
      var next := Place(p.dirs + {there}, there);
      FollowableStep(p, names);
      WalkMakesPlaces(next, names[1..], limits);
      PlacesStep(p.cwd, names, k);
      AtStep(p.cwd, names, k);
      PassedStep(p.dirs, p.cwd, names, limits);
      WalkGoesOn(p, names, limits);
    }
  }

  lemma WalkStops(p: Place, names: seq<string>, limits: Limits)
    requires Followable(p, names) && Passed(p.dirs, p.cwd, names, limits) == 0
    ensures Walk(p, names, limits) ==
            Walked(Place(p.dirs + Places(p.cwd, names[..0]) + Stranded(p.dirs, p.cwd, names, limits),
                         At(p.cwd, names[..0])),
                   !Blocked(p.dirs, p.cwd, names, limits))
  {
    assert Places(p.cwd, names[..0]) == {} && p.dirs + {} == p.dirs;
    if names != [] {
      assert At(p.cwd, names[..1]) == Go(p.cwd, names[0]) by {
        AtStep(p.cwd, names, 1);
        assert names[1..][..0] == [];
      }
      if names[0] != "" {
        FollowableStep(p, names);
      }
    }
  }

  lemma WalkGoesOn(p: Place, names: seq<string>, limits: Limits)
    requires Followable(p, names) && Passed(p.dirs, p.cwd, names, limits) > 0
    ensures var there := Go(p.cwd, names[0]);
            var next := Place(p.dirs + {there}, there);
            && Walk(p, names, limits) == Walk(next, names[1..], limits)
            && Passed(next.dirs, there, names[1..], limits) == Passed(p.dirs, there, names[1..], limits)
            && Blocked(next.dirs, there, names[1..], limits) == Blocked(p.dirs, there, names[1..], limits)
            && Stranded(next.dirs, there, names[1..], limits) == Stranded(p.dirs, there, names[1..], limits)
  {
    var there := Go(p.cwd, names[0]);
    FollowableStep(p, names);
    if there in p.dirs {
      assert p.dirs + {there} == p.dirs;
    } else {
      PassedIgnores(p.dirs, there, there, names[1..], limits);
    }
  }

  /** After build_tree's walk the working directory `cwd` that it saved is in force again exactly when the walk was not
      blocked, or was blocked in that very directory. */
  lemma RestoredIff(p: Place, names: seq<string>, limits: Limits, cwd: Path)
    requires Followable(p, names)
    ensures var w := Walk(p, names, limits);
            var k := Passed(p.dirs, p.cwd, names, limits);
            (if w.done then cwd else w.place.cwd) == cwd <==>
            !Blocked(p.dirs, p.cwd, names, limits) || cwd == At(p.cwd, names[..k])
    ensures NoDots(names) && !(p.cwd <= cwd) ==>
              var w := Walk(p, names, limits);
              ((if w.done then cwd else w.place.cwd) == cwd <==> !Blocked(p.dirs, p.cwd, names, limits))
  {
    WalkMakesPlaces(p, names, limits);
    if NoDots(names) {
      var k := Passed(p.dirs, p.cwd, names, limits);
      assert forall x | x in names[..k] :: x in names;
      AtWithoutDots(p.cwd, names[..k]);
    }
  }

  /** A missing directory that cannot be made leaves the process in the directory where it should have been. */
  lemma LeftInBase(dirs: set<Path>, base: Path, cwd: Path, n: string, limits: Limits)
    requires n !in {"", " ", ".", ".."} && base + [n] !in dirs && base + [n] in limits.noMake && base != cwd
    ensures var w := Walk(Place(dirs, base), [n], limits);
            !w.done && w.place == Place(dirs, base) && w.place.cwd != cwd
  {
  }

  // ----- names without dots -----

  predicate NoDots(names: seq<string>) {
    "." !in names && ".." !in names
  }

  /** The directories from `cwd` down along `names`, `cwd` itself not included. */
  function Prefixes(cwd: Path, names: seq<string>): set<Path> {
    set k: nat | 0 < k <= |names| :: cwd + names[..k]
  }

  lemma {:induction false} AtWithoutDots(cwd: Path, names: seq<string>)
    requires NoDots(names)
    ensures At(cwd, names) == cwd + names
    decreases |names|
  {
    if names != [] {
      assert names[0] in names && forall x | x in names[1..] :: x in names;
      AtWithoutDots(cwd + [names[0]], names[1..]);
      assert cwd + names == cwd + [names[0]] + names[1..];
    }
  }

  lemma PlacesWithoutDots(cwd: Path, names: seq<string>)
    requires NoDots(names)
    ensures Places(cwd, names) == Prefixes(cwd, names)
  {
    forall k | 0 < k <= |names| ensures At(cwd, names[..k]) == cwd + names[..k] {
      assert forall x | x in names[..k] :: x in names;
      AtWithoutDots(cwd, names[..k]);
    }
  }

  /** A walk without `.` and `..` adds exactly the directories along the names it gets through, and ends there. */
  lemma WalkMakesPrefixes(p: Place, names: seq<string>, limits: Limits)
    requires NoDots(names)
    ensures var k := Passed(p.dirs, p.cwd, names, limits);
            Walk(p, names, limits) ==
            Walked(Place(p.dirs + Prefixes(p.cwd, names[..k]) + Stranded(p.dirs, p.cwd, names, limits),
                         p.cwd + names[..k]),
                   !Blocked(p.dirs, p.cwd, names, limits))
  {
    var k := Passed(p.dirs, p.cwd, names, limits);
    WalkMakesPlaces(p, names, limits);
    assert forall x | x in names[..k] :: x in names;
    PlacesWithoutDots(p.cwd, names[..k]);
    AtWithoutDots(p.cwd, names[..k]);
  }

  /** Below a directory that does not exist there is none. */
  lemma NoneBelow(dirs: set<Path>, there: Path, rest: seq<string>)
    requires WellFormed(dirs) && there !in dirs
    ensures there + rest !in dirs
  {
    var d := there + rest;
    if rest == [] {
      assert d == there;
    } else {
      assert d[..|there|] == there;
    }
  }

  /** A name that stops a walk names no directory. */
  lemma StopsAtMissing(dirs: set<Path>, cwd: Path, n: string, limits: Limits)
    requires WellFormed(dirs) && n != "." && n != ".."
    requires n == "" || (n == " " && cwd + [n] !in dirs) || Refused(dirs, cwd + [n], n, limits)
    ensures cwd + [n] !in dirs
  {
    assert (cwd + [n])[|cwd|] == n;
  }

  lemma {:induction false} StoppedAt(dirs: set<Path>, cwd: Path, names: seq<string>, limits: Limits)
    requires WellFormed(dirs) && NoDots(names) && Passed(dirs, cwd, names, limits) < |names|
    ensures cwd + names !in dirs
    decreases |names|
  {
    var n, rest := names[0], names[1..];
    assert n in names && forall x | x in rest :: x in names;
    assert cwd + names == cwd + [n] + rest && Go(cwd, n) == cwd + [n];
    if Passed(dirs, cwd, names, limits) == 0 {
      StopsAtMissing(dirs, cwd, n, limits);
      NoneBelow(dirs, cwd + [n], rest);
    } else {
      StoppedAt(dirs, cwd + [n], rest, limits);
    }
  }

  /** After a walk without `.` and `..` the whole path exists exactly when the walk got through all its names, or was
      blocked at the last one by chown alone. */
  lemma WholePathExists(p: Place, names: seq<string>, limits: Limits)
    requires NoDots(names) && WellFormed(p.dirs) && p.cwd in p.dirs
    ensures var k := Passed(p.dirs, p.cwd, names, limits);
            p.cwd + names in Walk(p, names, limits).place.dirs <==>
            k == |names| ||
            (k + 1 == |names| && Blocked(p.dirs, p.cwd, names, limits) && p.cwd + names !in limits.noMake)
  {
    var k := Passed(p.dirs, p.cwd, names, limits);
    WalkMakesPrefixes(p, names, limits);
    if k == |names| {
      assert names[..k] == names;
      if names == [] {
        assert p.cwd + names == p.cwd;
      } else {
        assert p.cwd + names in Prefixes(p.cwd, names[..k]) by { assert names[..k][..k] == names; }
      }
    } else {
      StoppedAt(p.dirs, p.cwd, names, limits);
      assert forall d | d in Prefixes(p.cwd, names[..k]) :: |d| <= |p.cwd| + k;
      assert forall x | x in names[..k + 1] :: x in names;
      AtWithoutDots(p.cwd, names[..k + 1]);
      assert k + 1 == |names| ==> names[..k + 1] == names;
    }
  }

  // ----- names with dots -----

  /** Everything a walk makes lies below `root`. */
  ghost predicate MakesOnlyBelow(p: Place, names: seq<string>, limits: Limits, root: Path) {
    forall d | d in Walk(p, names, limits).place.dirs && d !in p.dirs :: root <= d
  }

  /** The names lead out of `root` only to directories that exist already. */
  ghost predicate LeavesToExisting(dirs: set<Path>, cwd: Path, names: seq<string>, root: Path) {
    forall j | 0 < j <= |names| :: At(cwd, names[..j]) in dirs || root <= At(cwd, names[..j])
  }

  /** A walk makes directories below its start only, exactly when among the names it gets through, and the one that it
      makes but cannot give away, no `..` leads to a missing directory outside. */
  lemma ContainedIff(p: Place, names: seq<string>, limits: Limits)
    requires Followable(p, names)
    ensures var k := Passed(p.dirs, p.cwd, names, limits);
            var more := if Stranded(p.dirs, p.cwd, names, limits) == {} then 0 else 1;
            k + more <= |names| &&
            (MakesOnlyBelow(p, names, limits, p.cwd) <==> LeavesToExisting(p.dirs, p.cwd, names[..k + more], p.cwd))
  {
    var k := Passed(p.dirs, p.cwd, names, limits);
    var stranded := Stranded(p.dirs, p.cwd, names, limits);
    var m := k + if stranded == {} then 0 else 1;
    WalkMakesPlaces(p, names, limits);
    PlacesGrow(p.cwd, names, k, m);
    assert Places(p.cwd, names[..m]) == Places(p.cwd, names[..k]) + stranded;
    forall j | 0 < j <= m ensures names[..m][..j] == names[..j] && At(p.cwd, names[..j]) in Places(p.cwd, names[..m]) {
      assert names[..m][..j] == names[..j];
    }
  }

  lemma PlacesGrow(cwd: Path, names: seq<string>, k: nat, m: nat)
    requires k <= m <= |names| && m <= k + 1
    ensures Places(cwd, names[..m]) == Places(cwd, names[..k]) + if m > k then {At(cwd, names[..m])} else {}
  {
    assert forall j | 0 < j <= k :: names[..m][..j] == names[..k][..j];
    assert names[..m][..m] == names[..m];
  }

  /** A path that never climbs above its start makes nothing outside it. */
  lemma NeverAboveIsContained(p: Place, names: seq<string>, limits: Limits)
    requires Followable(p, names)
    requires forall j | 0 < j <= |names| :: p.cwd <= At(p.cwd, names[..j])
    ensures MakesOnlyBelow(p, names, limits, p.cwd)
  {
    ContainedIff(p, names, limits);
    var m := Passed(p.dirs, p.cwd, names, limits) + if Stranded(p.dirs, p.cwd, names, limits) == {} then 0 else 1;
    forall j | 0 < j <= m ensures p.cwd <= At(p.cwd, names[..m][..j]) {
      assert names[..m][..j] == names[..j];
    }
  }

  /** A path that does, to a directory that is missing there and can be made. */
  lemma MadeBeside(dirs: set<Path>, root: Path, base: string, n: string, limits: Limits)
    requires WellFormed(dirs) && root in dirs && n !in {"", " ", ".", ".."} && n != base
    requires root + [n] !in dirs + limits.noMake + limits.noOwn
    ensures !MakesOnlyBelow(Place(dirs, root + [base]), ["..", n], limits, root + [base])
  {
    var p, there := Place(dirs, root + [base]), root + [n];
    assert Go(p.cwd, "..") == root;
    assert ["..", n][1..] == [n] && [n][1..] == [];
    assert Walk(p, ["..", n], limits) == Walk(Place(dirs, root), [n], limits);
    assert Walk(Place(dirs, root), [n], limits) == Walk(Place(dirs + {there}, there), [], limits);
    assert there in Walk(p, ["..", n], limits).place.dirs;
    assert there[|root|] != p.cwd[|root|];
  }

  // ----- a whole location -----

  /** The names, each followed by a slash. */
  function Slashed(names: seq<string>): string {
    if names == [] then "" else names[0] + "/" + Slashed(names[1..])
  }

  predicate PlainNames(names: seq<string>) {
    forall n | n in names :: n != "" && n != " " && n != "." && n != ".." && '/' !in n
  }

  lemma FirstComponent(n: string, rest: string)
    requires '/' !in n
    ensures Components(n + "/" + rest) == [n] + Components(rest)
  {
    var s := n + "/" + rest;
    assert forall i | 0 <= i < |n| :: s[i] == n[i];
    CspnIs(s, {'/'}, |n|);
    assert s[..|n|] == n && s[|n| + 1..] == rest;
  }

  predicate SlashFree(names: seq<string>) {
    forall n | n in names :: '/' !in n
  }

  lemma SlashFreeTail(names: seq<string>)
    requires SlashFree(names) && names != []
    ensures '/' !in names[0] && SlashFree(names[1..])
  {
    assert names[0] in names && forall x | x in names[1..] :: x in names;
  }

  lemma {:induction false} ComponentsOfSlashed(names: seq<string>, last: string)
    requires '/' !in last && SlashFree(names)
    ensures Components(Slashed(names) + last) == names + [last]
    decreases |names|
  {
    if names == [] {
      NoSlash(last);
      assert Slashed(names) + last == last;
    } else {
      SlashFreeTail(names);
      ComponentsOfSlashed(names[1..], last);
      FirstComponent(names[0], Slashed(names[1..]) + last);
      SlashedSplits(names, last);
      Regroup(names, last);
    }
  }

  lemma Regroup(names: seq<string>, last: string)
    requires names != []
    ensures [names[0]] + (names[1..] + [last]) == names + [last]
  {
  }

  lemma NoSlash(s: string)
    requires '/' !in s
    ensures Components(s) == [s]
  {
    CspnIs(s, {'/'}, |s|);
  }

  lemma SlashedSplits(names: seq<string>, last: string)
    requires names != []
    ensures Slashed(names) + last == names[0] + "/" + (Slashed(names[1..]) + last)
  {
  }

  lemma {:induction false} PlainPasses(dirs: set<Path>, cwd: Path, names: seq<string>, limits: Limits)
    requires PlainNames(names) && !Blocked(dirs, cwd, names, limits)
    ensures Passed(dirs, cwd, names, limits) == |names|
    decreases |names|
  {
    if names != [] {
      assert names[0] in names && forall x | x in names[1..] :: x in names;
      AtStep(cwd, names, 1);
      assert names[1..][..0] == [];
      PassedStep(dirs, cwd, names, limits);
      PlainPasses(dirs, cwd + [names[0]], names[1..], limits);
    }
  }

  lemma {:induction false} SlashedEnds(names: seq<string>)
    ensures names != [] ==> Slashed(names) != "" && Slashed(names)[|Slashed(names)| - 1] == '/'
  {
    if |names| == 1 {
      assert Slashed(names) == names[0] + "/" + Slashed([]);
    } else if |names| > 1 {
      SlashedEnds(names[1..]);
    }
  }

  /** The name that stands before the first question mark: that of the file, unless a directory's name has one. */
  function Named(names: seq<string>, tail: string): string {
    if names == [] || '?' in names[0] then UpToQuery(if names == [] then tail else names[0])
    else Named(names[1..], tail)
  }

  function UpToQuery(s: string): string {
    s[..Cspn(s, {'?'})]
  }

  lemma LastSlashIs(s: string, i: nat)
    requires s != "" && s[0] == '/' && i < |s| && s[i] == '/' && forall k | i < k < |s| :: s[k] != '/'
    ensures LastSlash(s) == i
  {
  }

  lemma AfterLastSlash(a: string, b: string)
    requires a != "" && a[0] == '/' && a[|a| - 1] == '/' && '/' !in b
    ensures LastSlash(a + b) == |a| - 1 && (a + b)[..|a|] == a && (a + b)[|a|..] == b
  {
    var s := a + b;
    assert forall k | |a| <= k < |s| :: s[k] == b[k - |a|];
    LastSlashIs(s, |a| - 1);
  }

  /** The file name of `front`, which ends in a slash and has no question mark, followed by `s`, which has no slash
      before its question mark. */
  lemma FileNameAfter(front: string, s: string)
    requires front != "" && front[0] == '/' && front[|front| - 1] == '/' && '?' !in front && '/' !in UpToQuery(s)
    ensures FileName(front + s) == UpToQuery(s)
  {
    var location, n := front + s, Cspn(s, {'?'});
    assert forall i | 0 <= i < |front| :: location[i] == front[i] && front[i] in front;
    CspnIs(location, {'?'}, |front| + n);
    assert location[..|front| + n] == front + s[..n];
    AfterLastSlash(front, s[..n]);
  }

  lemma {:induction false} FileNameIs(front: string, names: seq<string>, tail: string)
    requires front != "" && front[0] == '/' && front[|front| - 1] == '/' && '?' !in front
    requires SlashFree(names) && '/' !in tail
    ensures FileName(front + (Slashed(names) + tail)) == Named(names, tail)
    decreases |names|
  {
    if names == [] {
      assert Slashed(names) + tail == tail;
      FileNameAfter(front, tail);
    } else {
      var n, rest := names[0], Slashed(names[1..]) + tail;
      SlashFreeTail(names);
      SlashedSplits(names, tail);
      MoveSlash(front, n, rest);
      if '?' in n {
        QueryInFirst(n, "/" + rest);
        FileNameAfter(front, n + ("/" + rest));
      } else {
        FileNameIs(front + n + "/", names[1..], tail);
      }
    }
  }

  lemma MoveSlash(front: string, n: string, rest: string)
    ensures front + (n + "/" + rest) == front + (n + ("/" + rest)) == front + n + "/" + rest
  {
  }

  lemma QueryInFirst(n: string, rest: string)
    requires '?' in n
    ensures UpToQuery(n + rest) == UpToQuery(n)
  {
    var q := Cspn(n, {'?'});
    CspnIs(n + rest, {'?'}, q);
    assert (n + rest)[..q] == n[..q];
  }

  /** A location is split into exactly its directories and the name before the first question mark, with or without
      a query and wherever the question mark stands. */
  lemma LocationSplits(names: seq<string>, tail: string)
    requires SlashFree(names) && '/' !in tail
    ensures var location := "/" + (Slashed(names) + tail);
            Directory(location) == "/" + Slashed(names) && FileName(location) == Named(names, tail)
  {
    var path := "/" + Slashed(names);
    SlashedEnds(names);
    assert "/" + (Slashed(names) + tail) == path + tail;
    AfterLastSlash(path, tail);
    FileNameIs("/", names, tail);
  }

  /** Every location that starts with a slash has such parts. */
  lemma LocationHasParts(location: string) returns (names: seq<string>, tail: string)
    requires location != "" && location[0] == '/'
    ensures SlashFree(names) && '/' !in tail && location == "/" + (Slashed(names) + tail)
  {
    names, tail := SlashedParts(location[1..]);
  }

  lemma {:induction false} SlashedParts(s: string) returns (names: seq<string>, tail: string)
    ensures SlashFree(names) && '/' !in tail && s == Slashed(names) + tail
    decreases |s|
  {
    var n := Cspn(s, {'/'});
    if n == |s| {
      names, tail := [], s;
      assert Slashed(names) + tail == s;
    } else {
      var rest;
      rest, tail := SlashedParts(s[n + 1..]);
      names := [s[..n]] + rest;
      assert names[1..] == rest && s == s[..n] + "/" + s[n + 1..];
      SlashedSplits(names, tail);
    }
  }

  /** The emulation of one request: for every location made of plain directory names and a last part, the query
      included, a call that is not blocked makes every directory down to the one that will hold the file and no
      other, and comes back to the working directory; one that is blocked does not come back, unless that directory
      is where it was blocked. */
  method PrepareDirectory(fs: FileSystem, proto: Protocol, location: string, ghost names: seq<string>,
                          ghost tail: string)
      returns (r: Outcome, name: string)
    requires fs.cwd in fs.dirs
    requires PlainNames(names) && '/' !in tail && location == "/" + (Slashed(names) + tail)
    modifies fs
    ensures name == Named(names, tail) && old(fs.dirs) <= fs.dirs
    ensures var base := if proto.Http? then ["var", "www", "localhost", "htdocs"] else ["home", "ftp"];
            && (r == Skipped <==> proto.Other? || base !in old(fs.dirs))
            && (forall d | d in fs.dirs && d !in old(fs.dirs) :: base <= d)
            && (r != Skipped ==>
                  var k := Passed(old(fs.dirs), base, names, fs.limits);
                  && (r == Failed <==> Blocked(old(fs.dirs), base, names, fs.limits))
                  && (fs.cwd == old(fs.cwd) <==> r == Built || old(fs.cwd) == base + names[..k]))
            && (r == Built ==> fs.dirs == old(fs.dirs) + Prefixes(base, names) && base + names in fs.dirs)
  {
    LocationSplits(names, tail);
    var path, file := Extract(location);
    name := file;
    PlainVisits(path, names);
    VisitedPlain(Place(fs.dirs, BaseDir(proto)), names, WalkedNames(path), fs.limits);
    r := BuildTree(fs, proto, path);
  }

  lemma PlainVisits(path: string, names: seq<string>)
    requires PlainNames(names) && path == "/" + Slashed(names)
    ensures '/' in path && WalkedNames(path) == if names == [] then [""] else names
  {
    assert path[0] == '/' && Cspn(path, {'/'}) == 0 && path[1..] == Slashed(names) + "";
    ComponentsOfSlashed(names, "");
  }

  lemma StrandedBelow(p: Place, names: seq<string>, limits: Limits)
    requires NoDots(names)
    ensures forall d | d in Stranded(p.dirs, p.cwd, names, limits) :: p.cwd <= d
  {
    var k := Passed(p.dirs, p.cwd, names, limits);
    if k < |names| {
      assert forall x | x in names[..k + 1] :: x in names;
      AtWithoutDots(p.cwd, names[..k + 1]);
    }
  }

  lemma VisitedPlain(p: Place, names: seq<string>, visited: seq<string>, limits: Limits)
    requires PlainNames(names) && visited == if names == [] then [""] else names
    ensures var w, k := Walk(p, visited, limits), Passed(p.dirs, p.cwd, names, limits);
            && (w.done <==> !Blocked(p.dirs, p.cwd, names, limits))
            && w.place.cwd == p.cwd + names[..k]
            && (w.done ==> w.place.dirs == p.dirs + Prefixes(p.cwd, names))
            && (w.done && p.cwd in p.dirs ==> p.cwd + names in w.place.dirs)
            && (forall d | d in w.place.dirs && d !in p.dirs :: p.cwd <= d)
  {
    if names == [] {
      assert Prefixes(p.cwd, names) == {} && p.dirs + {} == p.dirs && p.cwd + [] == p.cwd;
    } else {
      WalkMakesPrefixes(p, names, limits);
      StrandedBelow(p, names, limits);
      if !Blocked(p.dirs, p.cwd, names, limits) {
        PlainPasses(p.dirs, p.cwd, names, limits);
        assert names[..|names|] == names && p.cwd + names[..|names|] in Prefixes(p.cwd, names);
      }
    }
  }
}
