/** Package-root resolution (src/directory-helpers/getPackageDirectory.ts):
    walk up from a start directory listing `package.json` files, decode
    each, and pick one according to the target.

    The adapter is the synchronous Node one: its `list_files` is
    `FileIoSyncNode.ListFilesSync` over what `readdir` answers for each
    directory, its `directory_name` is `path.dirname`, and its `read` is
    the reader of `readJsonFromFileSync`. The directories the caller's
    stack and the invoked script lie in, the current directory that
    `path.relative` resolves against, `readdir`, `read` and the JSON parser
    are all parameters. */
module PackageDirectory {
  import opened Outcomes
  import opened Text
  import opened PosixPath
  import opened TrailingSep
  import opened JsonValue
  import FileIoSyncNode
  import FileHelpersReadJson

  /** `{package_uri, package_directory, package_object, package_object_error?}` */
  datatype Package = Package(packageUri: string, packageDirectory: string, packageObject: Json, packageObjectError: Option<string>)

  /** `Target`; the strategy of `root` is kept as the text it holds. */
  datatype Target = Caller | Root(strategy: Option<string>) | ClosestDirectory(dir: string) | FileIo

  const CallerOrCallerConsumer := "caller-or-caller-consumer"
  const CannotTrust := "Cannot trust the found package root - it was too far from the caller."
  const CouldNotPick := "Could not pick package directory"
  /** What reading `.name` of a `null` package object throws. */
  const NullName := "Cannot read properties of null (reading 'name')"

  /** `readdirSync(dir, {withFileTypes: true})` for each directory. */
  type Readdir = string -> Completion<seq<FileIoSyncNode.Dirent>>

  // ---------------------------------------------------------------------
  // the upward walk

  /** `directoryHasParent` */
  predicate DirectoryHasParent(directory: string)
  {
    !(directory == "/" || |directory| <= 2)
  }

  /** The file pattern `/^package\.json$/i`. */
  predicate IsPackageJsonName(name: string)
  {
    EqualsIgnoringCase(name, "package.json")
  }

  /** The directories the walk lists, in order: the start, then each parent
      for as long as it has a parent itself. */
  function Ancestors(dir: string): (dirs: seq<string>)
    ensures |dirs| >= 1 && dirs[0] == dir
    decreases |dir|
  {
    var up := Dirname(dir);
    if DirectoryHasParent(up) then [dir] + Ancestors(up) else [dir]
  }

  /** The uris `list_files` reports for the package files of one
      directory. */
  function UrisIn(dir: string, readdir: Readdir): (r: Completion<seq<string>>)
    ensures r.Threw? <==> readdir(dir).Threw?
    ensures r.Returned? ==> forall u :: u in r.value ==>
              exists d :: d in readdir(dir).value && d.isFile && IsPackageJsonName(d.name)
                          && u == StripTrailingSep(d.parentPath) + "/" + d.name
    ensures r.Returned? ==> forall d :: d in readdir(dir).value && d.isFile && IsPackageJsonName(d.name) ==>
              StripTrailingSep(d.parentPath) + "/" + d.name in r.value
  {
    match FileIoSyncNode.ListFilesSync(dir, readdir(dir), Some(IsPackageJsonName))
    case Threw(message) => Threw(message)
    case Returned(listed) =>
      var uris := seq(|listed|, i requires 0 <= i < |listed| => listed[i].uri);
      assert forall l :: l in listed ==> l.uri in uris by {
        forall l | l in listed ensures l.uri in uris {
          var i :| 0 <= i < |listed| && listed[i] == l;
          assert uris[i] == l.uri;
        }
      }
      assert forall u :: u in uris ==> exists l :: l in listed && u == l.uri by {
        forall u | u in uris ensures exists l :: l in listed && u == l.uri {
          var i :| 0 <= i < |uris| && uris[i] == u;
          assert listed[i] in listed;
        }
      }
      Returned(uris)
  }

  /** The uris the walk gathers over `dirs`, in order: the first failing
      listing ends it. */
  function Collect(dirs: seq<string>, readdir: Readdir): Completion<seq<string>>
  {
    if dirs == [] then Returned([])
    else Concat(Collect(dirs[..|dirs| - 1], readdir), UrisIn(dirs[|dirs| - 1], readdir))
  }

  /** Two listings in turn: the first failure ends it, otherwise the uris
      are joined in order. */
  function Concat(a: Completion<seq<string>>, b: Completion<seq<string>>): (r: Completion<seq<string>>)
    ensures r.Threw? <==> a.Threw? || b.Threw?
    ensures a.Threw? ==> r == a
    ensures r.Returned? ==> r.value == a.value + b.value
  {
    match a
    case Threw(message) => Threw(message)
    case Returned(found) =>
      match b
      case Threw(message) => Threw(message)
      case Returned(here) => Returned(found + here)
  }

  lemma ConcatAssociative(a: Completion<seq<string>>, b: Completion<seq<string>>, c: Completion<seq<string>>)
    ensures Concat(Concat(a, b), c) == Concat(a, Concat(b, c))
  {
    if a.Returned? && b.Returned? && c.Returned? {
      assert a.value + b.value + c.value == a.value + (b.value + c.value);
    }
  }

  /** The walk throws exactly when some directory's listing throws, and
      every uri it gathers comes from one of the directories. */
  lemma {:induction false} CollectSources(dirs: seq<string>, readdir: Readdir)
    ensures Collect(dirs, readdir).Threw? <==> exists i :: 0 <= i < |dirs| && UrisIn(dirs[i], readdir).Threw?
    ensures Collect(dirs, readdir).Returned? ==> forall u :: u in Collect(dirs, readdir).value ==>
              exists i :: 0 <= i < |dirs| && UrisIn(dirs[i], readdir).Returned? && u in UrisIn(dirs[i], readdir).value
  {
    if dirs != [] {
      var front := dirs[..|dirs| - 1];
      var last := |dirs| - 1;
      CollectSources(front, readdir);
      assert forall i :: 0 <= i < |front| ==> front[i] == dirs[i];
      if Collect(dirs, readdir).Returned? {
        var found := Collect(front, readdir).value;
        var here := UrisIn(dirs[last], readdir).value;
        forall u | u in found + here
          ensures exists i :: 0 <= i < |dirs| && UrisIn(dirs[i], readdir).Returned? && u in UrisIn(dirs[i], readdir).value
        {
          if u !in here {
            assert u in found;
          }
        }
      }
    }
  }

  /** Collecting over a directory and the ones after it: the directory's
      uris come first. */
  lemma {:induction false} CollectFront(d: string, rest: seq<string>, readdir: Readdir)
    ensures Collect([d] + rest, readdir) == Concat(UrisIn(d, readdir), Collect(rest, readdir))
    decreases |rest|
  {
    var ds := [d] + rest;
    if rest == [] {
      assert ds[..0] == [] && ds[0] == d;
      assert Collect(ds, readdir) == Concat(Returned([]), UrisIn(d, readdir));
      if UrisIn(d, readdir).Returned? {
        var here := UrisIn(d, readdir).value;
        assert [] + here == here + [];
      }
    } else {
      var front := rest[..|rest| - 1];
      var last := UrisIn(rest[|rest| - 1], readdir);
      assert ds[..|ds| - 1] == [d] + front;
      assert ds[|ds| - 1] == rest[|rest| - 1];
      calc {
        Collect(ds, readdir);
        Concat(Collect([d] + front, readdir), last);
        { CollectFront(d, front, readdir); }
        Concat(Concat(UrisIn(d, readdir), Collect(front, readdir)), last);
        { ConcatAssociative(UrisIn(d, readdir), Collect(front, readdir), last); }
        Concat(UrisIn(d, readdir), Concat(Collect(front, readdir), last));
        Concat(UrisIn(d, readdir), Collect(rest, readdir));
      }
    }
  }

  /** A failed listing ends the collection with its message. */
  lemma CollectSnocThrows(done: seq<string>, d: string, rest: seq<string>, readdir: Readdir)
    requires Collect(done, readdir).Returned? && UrisIn(d, readdir).Threw?
    ensures Collect(done + [d] + rest, readdir) == Threw(UrisIn(d, readdir).message)
    decreases |rest|
  {
    if rest == [] {
      assert (done + [d] + rest)[..|done|] == done;
      assert done + [d] + rest == done + [d];
    } else {
      var front := rest[..|rest| - 1];
      assert (done + [d] + rest)[..|done + [d] + rest| - 1] == done + [d] + front;
      CollectSnocThrows(done, d, front, readdir);
    }
  }

  /** One more directory listed: its uris are appended. */
  lemma CollectSnoc(done: seq<string>, d: string, readdir: Readdir)
    requires Collect(done, readdir).Returned? && UrisIn(d, readdir).Returned?
    ensures Collect(done + [d], readdir) == Returned(Collect(done, readdir).value + UrisIn(d, readdir).value)
  {
    assert (done + [d])[..|done|] == done;
  }

  /** The walk from a directory: that directory, then the walk from its
      parent if the parent has a parent. */
  lemma AncestorsStep(dir: string)
    ensures Ancestors(dir) == [dir] + (if DirectoryHasParent(Dirname(dir)) then Ancestors(Dirname(dir)) else [])
  {
  }

  lemma Reassociate(a: seq<string>, b: seq<string>, c: seq<string>)
    ensures a + (b + c) == a + b + c
  {
  }

  /** The list of found uris becomes packages: each is decoded with `{}`
      as the default, so a decoding failure is kept as a message. */
  function PackageOf(uri: string, read: FileHelpersReadJson.Reader, parse: Parser): (r: Completion<Package>)
    ensures r.Returned? ==> r.value.packageUri == uri && r.value.packageDirectory == Dirname(uri)
    ensures r.Returned? && r.value.packageObjectError.Some? ==> r.value.packageObject == JObject(map[])
    ensures r.Returned? && uri != "" ==>
              (r.value.packageObjectError.None? <==>
                 read(uri).Returned? && read(uri).value.Some? && parse(read(uri).value.value) == Parsed(r.value.packageObject))
  {
    match FileHelpersReadJson.ReadJsonFromFileSync(Some(uri), Some(JObject(map[])), read, parse)
    case Threw(message) => Threw(message)
    case Returned(result) =>
      assert result.jsonObject.Some?;
      Returned(Package(uri, Dirname(uri), result.jsonObject.value, result.error))
  }

  function Packages(uris: seq<string>, read: FileHelpersReadJson.Reader, parse: Parser): (r: Completion<seq<Package>>)
    ensures r.Returned? ==> |r.value| == |uris|
    ensures r.Returned? ==> forall i :: 0 <= i < |uris| ==> PackageOf(uris[i], read, parse) == Returned(r.value[i])
  {
    if uris == [] then Returned([])
    else
      match PackageOf(uris[0], read, parse)
      case Threw(message) => Threw(message)
      case Returned(first) =>
        match Packages(uris[1..], read, parse)
        case Threw(message) => Threw(message)
        case Returned(rest) => Returned([first] + rest)
  }

  /** What `listPackagesUpwardsSync` answers. */
  function PackagesUpwards(start: string, readdir: Readdir, read: FileHelpersReadJson.Reader, parse: Parser): Completion<seq<Package>>
  {
    match Collect(Ancestors(start), readdir)
    case Threw(message) => Threw(message)
    case Returned(uris) => Packages(uris, read, parse)
  }

  /** `listPackagesUpwardsSync`: the walk up, then the decoding. */
  method ListPackagesUpwardsSync(startFromDirectory: string, readdir: Readdir, read: FileHelpersReadJson.Reader, parse: Parser)
    returns (r: Completion<seq<Package>>)
    ensures r == PackagesUpwards(startFromDirectory, readdir, read, parse)
  {
    var packageUris := ListPackageUrisUpwards(startFromDirectory, readdir);
    if packageUris.Threw? {
      return Threw(packageUris.message);
    }
    r := Packages(packageUris.value, read, parse);
  }

  /** The loop of `listPackagesUpwardsSync`: list the directory, move to
      its parent, stop once the parent has no parent. */
  method ListPackageUrisUpwards(startFromDirectory: string, readdir: Readdir) returns (r: Completion<seq<string>>)
    ensures r == Collect(Ancestors(startFromDirectory), readdir)
  {
    var packageUris: seq<string> := [];
    var dir := startFromDirectory;
    ghost var done: seq<string> := [];
    while true
      invariant Ancestors(startFromDirectory) == done + Ancestors(dir)
      invariant Collect(done, readdir) == Returned(packageUris)
      decreases |dir|
    {
      var listed := UrisIn(dir, readdir);
      ghost var rest := if DirectoryHasParent(Dirname(dir)) then Ancestors(Dirname(dir)) else [];
      AncestorsStep(dir);
      Reassociate(done, [dir], rest);
      if listed.Threw? {
        CollectSnocThrows(done, dir, rest, readdir);
        assert Ancestors(startFromDirectory) == done + [dir] + rest;
        return Threw(listed.message);
      }
      CollectSnoc(done, dir, readdir);
      packageUris := packageUris + listed.value;
      done := done + [dir];
      dir := Dirname(dir);
      if !DirectoryHasParent(dir) {
        assert done + rest == done;
        assert Ancestors(startFromDirectory) == done;
        break;
      }
    }
    r := Returned(packageUris);
  }

  // ---------------------------------------------------------------------
  // choosing a package

  /** `targetDefaults`: no target means `caller`, and a `root` target
      without a strategy gets `caller-or-caller-consumer`. */
  function TargetDefaults(target: Option<Target>): (t: Target)
    ensures target.None? ==> t == Caller
    ensures t.Root? ==> t.strategy.Some? && t.strategy.value != ""
    ensures target.Some? && target.value.Root? ==>
              t == if target.value.strategy.None? || target.value.strategy.value == "" then Root(Some(CallerOrCallerConsumer)) else target.value
    ensures target.Some? && !target.value.Root? ==> t == target.value
  {
    var t := if target.None? then Caller else target.value;
    if t.Root? && (t.strategy.None? || t.strategy.value == "") then Root(Some(CallerOrCallerConsumer)) else t
  }

  /** Defaults applied twice change nothing more. */
  lemma TargetDefaultsIdempotent(target: Option<Target>)
    ensures TargetDefaults(Some(TargetDefaults(target))) == TargetDefaults(target)
  {
  }

  /** `packages[0]?.package_directory` */
  function FirstDirectory(packages: seq<Package>): (d: Option<string>)
    ensures d.Some? <==> |packages| > 0
    ensures d.Some? ==> d.value == packages[0].packageDirectory
  {
    if |packages| > 0 then Some(packages[0].packageDirectory) else None
  }

  /** `packages[packages.length - 1]?.package_directory` */
  function LastDirectory(packages: seq<Package>): (d: Option<string>)
    ensures d.Some? <==> |packages| > 0
    ensures d.Some? ==> d.value == packages[|packages| - 1].packageDirectory
  {
    if |packages| > 0 then Some(packages[|packages| - 1].packageDirectory) else None
  }

  /** The number of `/`-separated parts of the `name` field when it is a
      non-empty string, otherwise 2; reading a field of `null` throws. */
  function PartsInPackageName(packageObject: Json): (r: Completion<nat>)
    ensures r.Threw? <==> packageObject.JNull?
    ensures r.Returned? ==> r.value >= 1
  {
    match packageObject
    case JNull => Threw(NullName)
    case JObject(fields) =>
      if "name" in fields && fields["name"].JString? && fields["name"].s != "" then
        SplitShape(fields["name"].s, '/');
        Returned(|Split(fields["name"].s, '/')|)
      else Returned(2)
    case _ => Returned(2)
  }

  /** The `root`/`caller-or-caller-consumer` heuristic for two or more
      packages: trust the second package when the hop from it to the first
      has no more parts than the first one's name has, plus one. */
  predicate IsClose(packages: seq<Package>, parts: nat, cwd: string)
    requires |packages| >= 2
  {
    |Split(Relative(cwd, packages[1].packageDirectory, packages[0].packageDirectory), '/')| <= parts + 1
  }

  /** The directory the target picks, before the final check. */
  function ChooseDirectory(packages: seq<Package>, target: Target, cwd: string): (r: Completion<Option<string>>)
    ensures r.Returned? && r.value.Some? ==> exists i :: 0 <= i < |packages| && packages[i].packageDirectory == r.value.value
    ensures packages == [] ==> r == Returned(None)
  {
    match target
    case Root(strategy) =>
      if strategy == Some(CallerOrCallerConsumer) then
        if |packages| <= 1 then Returned(FirstDirectory(packages))
        else
          match PartsInPackageName(packages[0].packageObject)
          case Threw(message) => Threw(message)
          case Returned(parts) =>
            if IsClose(packages, parts, cwd) then Returned(Some(packages[1].packageDirectory))
            else Threw(CannotTrust)
      else Returned(LastDirectory(packages))
    case _ => Returned(FirstDirectory(packages))
  }

  /** `pickPackageDirectory`: the chosen directory, which must be a
      non-empty string. */
  function PickPackageDirectory(packages: seq<Package>, target: Target, cwd: string): (r: Completion<string>)
    ensures r.Returned? ==> r.value != "" && exists i :: 0 <= i < |packages| && packages[i].packageDirectory == r.value
    ensures packages == [] ==> r == Threw(CouldNotPick)
  {
    match ChooseDirectory(packages, target, cwd)
    case Threw(message) => Threw(message)
    case Returned(directory) =>
      if directory.None? || directory.value == "" then Threw(CouldNotPick) else Returned(directory.value)
  }

  /** `caller`, `fileio` and `closest-directory` take the nearest package. */
  lemma NearestPackage(packages: seq<Package>, target: Target, cwd: string)
    requires target.Caller? || target.FileIo? || target.ClosestDirectory?
    requires |packages| >= 1 && packages[0].packageDirectory != ""
    ensures PickPackageDirectory(packages, target, cwd) == Returned(packages[0].packageDirectory)
  {
  }

  /** `root` with a strategy other than `caller-or-caller-consumer` takes
      the outermost package. */
  lemma OutermostPackage(packages: seq<Package>, strategy: Option<string>, cwd: string)
    requires strategy != Some(CallerOrCallerConsumer)
    requires |packages| >= 1 && packages[|packages| - 1].packageDirectory != ""
    ensures PickPackageDirectory(packages, Root(strategy), cwd) == Returned(packages[|packages| - 1].packageDirectory)
  {
  }

  /** With the default strategy and a single package, that package is the
      root. */
  lemma SinglePackageIsRoot(p: Package, cwd: string)
    requires p.packageDirectory != ""
    ensures PickPackageDirectory([p], Root(Some(CallerOrCallerConsumer)), cwd) == Returned(p.packageDirectory)
  {
  }

  /** With the default strategy and two or more packages, the second one is
      taken exactly when it is close; otherwise the choice throws, and it
      never falls back to the first. */
  lemma RootHeuristic(packages: seq<Package>, cwd: string)
    requires |packages| >= 2 && !packages[0].packageObject.JNull?
    ensures var parts := PartsInPackageName(packages[0].packageObject).value;
            var r := PickPackageDirectory(packages, Root(Some(CallerOrCallerConsumer)), cwd);
            && (r == Returned(packages[1].packageDirectory) <==> IsClose(packages, parts, cwd) && packages[1].packageDirectory != "")
            && (!IsClose(packages, parts, cwd) ==> r == Threw(CannotTrust))
            && (r.Returned? ==> r.value == packages[1].packageDirectory)
  {
  }

  /** The design's reasoning: `node_modules` is flat, so a package deployed
      as a dependency sits at `<root>/node_modules/<name>`, which is within
      the hops its name allows; the consuming project is then trusted as the
      root. */
  lemma ConsumerOfDependency(packages: seq<Package>, cwd: string, name: string)
    requires |packages| >= 2 && packages[1].packageDirectory != ""
    requires packages[0].packageObject.JObject? && "name" in packages[0].packageObject.fields
    requires packages[0].packageObject.fields["name"] == JString(name) && name != ""
    requires Locate(cwd, packages[0].packageDirectory) == Locate(cwd, packages[1].packageDirectory) + ["node_modules"] + Split(name, '/')
    ensures PickPackageDirectory(packages, Root(Some(CallerOrCallerConsumer)), cwd) == Returned(packages[1].packageDirectory)
  {
    var f := Locate(cwd, packages[1].packageDirectory);
    var t := Locate(cwd, packages[0].packageDirectory);
    CommonPrefixOfExtension(f, t);
    RelativeParts(cwd, packages[1].packageDirectory, packages[0].packageDirectory);
    SplitShape(name, '/');
    assert IsClose(packages, |Split(name, '/')|, cwd);
  }

  /** A path shares all of itself with a path it is a prefix of. */
  lemma {:induction false} CommonPrefixOfExtension(f: seq<string>, t: seq<string>)
    requires f <= t
    ensures CommonPrefixLength(f, t) == |f|
  {
    if |f| > 0 {
      assert f[0] == t[0];
      assert f[1..] <= t[1..];
      CommonPrefixOfExtension(f[1..], t[1..]);
    }
  }

  // ---------------------------------------------------------------------
  // getPackageDirectorySync

  /** `pickStartingDirectorySync`: the invoked script's directory for
      `fileio`, the given directory for `closest-directory`, otherwise the
      caller's directory. */
  function StartingDirectory(target: Target, invokedDirectory: string, callingDirectory: string): string
  {
    match target
    case FileIo => invokedDirectory
    case ClosestDirectory(dir) => dir
    case _ => callingDirectory
  }

  /** What `getPackageDirectorySync` answers. */
  function PackageDirectoryOf(target: Option<Target>, invokedDirectory: string, callingDirectory: string,
                              readdir: Readdir, read: FileHelpersReadJson.Reader, parse: Parser, cwd: string): (r: Completion<string>)
    ensures r.Returned? ==> r.value != ""
  {
    var t := TargetDefaults(target);
    match PackagesUpwards(StartingDirectory(t, invokedDirectory, callingDirectory), readdir, read, parse)
    case Threw(message) => Threw(message)
    case Returned(packages) => PickPackageDirectory(packages, t, cwd)
  }

  method GetPackageDirectorySync(target: Option<Target>, invokedDirectory: string, callingDirectory: string,
                                 readdir: Readdir, read: FileHelpersReadJson.Reader, parse: Parser, cwd: string)
    returns (r: Completion<string>)
    ensures r == PackageDirectoryOf(target, invokedDirectory, callingDirectory, readdir, read, parse, cwd)
  {
    var t := TargetDefaults(target);
    var startDirectory := StartingDirectory(t, invokedDirectory, callingDirectory);
    var packages := ListPackagesUpwardsSync(startDirectory, readdir, read, parse);
    if packages.Threw? {
      return Threw(packages.message);
    }
    r := PickPackageDirectory(packages.value, t, cwd);
  }

  // ---------------------------------------------------------------------
  // properties of the walk

  /** A `readdir` that answers for the directory it is asked about. */
  ghost predicate ListsItself(readdir: Readdir, dir: string)
  {
    readdir(dir).Returned? ==> forall d :: d in readdir(dir).value ==> d.parentPath == dir
  }

  /** The start directory is always listed and listed first; every later
      directory is the parent of the one before and has a parent itself, so
      the filesystem root is never listed after the start; and the walk
      stops at the first directory whose parent has no parent. */
  lemma {:induction false} WalkOrder(start: string)
    ensures var dirs := Ancestors(start);
            && dirs[0] == start
            && (forall i :: 1 <= i < |dirs| ==> dirs[i] == Dirname(dirs[i - 1]) && DirectoryHasParent(dirs[i]))
            && !DirectoryHasParent(Dirname(dirs[|dirs| - 1]))
    decreases |start|
  {
    var up := Dirname(start);
    if DirectoryHasParent(up) {
      WalkOrder(up);
      var rest := Ancestors(up);
      var dirs := [start] + rest;
      assert forall i :: 1 <= i < |dirs| ==> dirs[i] == rest[i - 1];
      assert dirs[1] == up;
    }
  }

  /** In particular the root `/` is never listed unless it is the start. */
  lemma RootNeverClimbedTo(start: string)
    ensures forall i :: 1 <= i < |Ancestors(start)| ==> Ancestors(start)[i] != "/" && |Ancestors(start)[i]| > 2
  {
    WalkOrder(start);
  }

  /** The start directory's package files come first in the walk's result. */
  lemma StartListedFirst(start: string, readdir: Readdir)
    requires Collect(Ancestors(start), readdir).Returned?
    ensures UrisIn(start, readdir).Returned?
    ensures UrisIn(start, readdir).value <= Collect(Ancestors(start), readdir).value
  {
    var dirs := Ancestors(start);
    assert dirs == [start] + dirs[1..];
    CollectFront(start, dirs[1..], readdir);
  }

  /** A name matching the pattern is a proper file name. */
  lemma PackageJsonNameIsProper(name: string)
    requires IsPackageJsonName(name)
    ensures |name| == 12 && '/' !in name
  {
    var target := "package.json";
    forall i | 0 <= i < |name|
      ensures name[i] != '/'
    {
      assert AsciiLower(name[i]) == AsciiLower(target[i]);
      assert target[i] != '/';
    }
  }

  /** A package file found in a directory written without a trailing
      separator gives that directory as the package directory. */
  lemma FoundInDirectory(dir: string, d: FileIoSyncNode.Dirent)
    requires |dir| >= 1 && dir != "/" && !EndsWithSep(dir)
    requires d.parentPath == dir && IsPackageJsonName(d.name)
    ensures Dirname(StripTrailingSep(d.parentPath) + "/" + d.name) == dir
  {
    PackageJsonNameIsProper(d.name);
    DirnameOfChild(dir, d.name);
  }

  /** The first uri of a walk from a directory holding a package file
      lies in that directory. */
  lemma FirstUriInStart(dir: string, readdir: Readdir, d: FileIoSyncNode.Dirent)
    requires |dir| >= 1 && dir != "/" && !EndsWithSep(dir)
    requires ListsItself(readdir, dir) && readdir(dir).Returned?
    requires d in readdir(dir).value && d.isFile && IsPackageJsonName(d.name)
    requires Collect(Ancestors(dir), readdir).Returned?
    ensures var uris := Collect(Ancestors(dir), readdir).value;
            |uris| >= 1 && Dirname(uris[0]) == dir
  {
    StartListedFirst(dir, readdir);
    var here := UrisIn(dir, readdir).value;
    assert StripTrailingSep(d.parentPath) + "/" + d.name in here;
    assert here[0] in here;
    var e :| e in readdir(dir).value && e.isFile && IsPackageJsonName(e.name) && here[0] == StripTrailingSep(e.parentPath) + "/" + e.name;
    FoundInDirectory(dir, e);
  }

  /** `closest-directory` with a package file in the directory itself
      answers that directory, once the walk and the decoding succeed. */
  lemma ClosestDirectoryFindsItself(dir: string, invokedDirectory: string, callingDirectory: string,
                                    readdir: Readdir, read: FileHelpersReadJson.Reader, parse: Parser, cwd: string, d: FileIoSyncNode.Dirent)
    requires |dir| >= 1 && dir != "/" && !EndsWithSep(dir)
    requires ListsItself(readdir, dir) && readdir(dir).Returned?
    requires d in readdir(dir).value && d.isFile && IsPackageJsonName(d.name)
    requires PackagesUpwards(dir, readdir, read, parse).Returned?
    ensures PackageDirectoryOf(Some(ClosestDirectory(dir)), invokedDirectory, callingDirectory, readdir, read, parse, cwd) == Returned(dir)
  {
    FirstUriInStart(dir, readdir, d);
    var uris := Collect(Ancestors(dir), readdir).value;
    var packages := Packages(uris, read, parse).value;
    assert PackageOf(uris[0], read, parse) == Returned(packages[0]);
    NearestPackage(packages, ClosestDirectory(dir), cwd);
  }
}
