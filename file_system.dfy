/** An abstract filesystem: a map from a location (the segments of an
    absolute, normalized path) to a file with its content or a directory,
    and Node's synchronous `fs` primitives over it. Error results carry the
    Node error code. */
module FileSystem {
  import opened Outcomes
  import opened PosixPath

  /** The segments of an absolute normalized path; `[]` is the root. */
  type Key = seq<string>

  datatype Entry = File(content: string) | Dir

  type Tree = map<Key, Entry>

  /** What `existsSync`/`statSync` report about a path. */
  datatype Stat = Absent | IsFile | IsDirectory

  /** The root is a directory and every other entry sits in a directory. */
  predicate WellFormed(t: Tree)
  {
    && [] in t && t[[]] == Dir
    && forall k :: k in t && |k| > 0 ==> k[..|k| - 1] in t && t[k[..|k| - 1]] == Dir
  }

  /** The location a path string names. Node treats the empty path as naming
      nothing; any other path is resolved lexically against the working
      directory, as `path.resolve` does: a trailing '/' is dropped and '..'
      is collapsed without consulting the entries. */
  function KeyOf(cwd: string, p: string): (at: Option<Key>)
    ensures at.Some? <==> p != ""
    ensures at.Some? ==> Clean(at.value)
  {
    if p == "" then None else Some(Locate(cwd, p))
  }

  /** A rendered location, and its directory, name what they render. */
  lemma KeyOfRendered(cwd: string, segs: seq<string>)
    requires Clean(segs) && |segs| >= 1
    ensures KeyOf(cwd, Render(segs)) == Some(segs)
    ensures KeyOf(cwd, Dirname(Render(segs))) == Some(segs[..|segs| - 1])
  {
    LocateRendered(cwd, segs);
    DirnameRendered(segs);
    assert Clean(segs[..|segs| - 1]);
    LocateRendered(cwd, segs[..|segs| - 1]);
  }

  function StatAt(t: Tree, at: Option<Key>): (s: Stat)
    ensures s == Absent <==> (at.None? || at.value !in t)
    ensures s == IsDirectory <==> (at.Some? && at.value in t && t[at.value] == Dir)
  {
    if at.None? || at.value !in t then Absent
    else if t[at.value].Dir? then IsDirectory
    else IsFile
  }

  /** Some proper ancestor of `k`, or `k` itself when `inclusive`, is a file. */
  predicate FileOnPath(t: Tree, k: Key, inclusive: bool)
  {
    exists i :: 0 <= i <= |k| && (inclusive || i < |k|) && k[..i] in t && t[k[..i]].File?
  }

  /** The code Node reports for a location that is absent. */
  function MissingCode(t: Tree, k: Key): string
  {
    if FileOnPath(t, k, false) then "ENOTDIR" else "ENOENT"
  }

  /** The parent of `k` exists and is a directory. */
  predicate ParentIsDir(t: Tree, k: Key)
  {
    |k| > 0 && k[..|k| - 1] in t && t[k[..|k| - 1]] == Dir
  }

  /** A directory entry has at least one entry directly inside it. */
  predicate HasChildren(t: Tree, k: Key)
  {
    exists key :: key in t && |key| == |k| + 1 && key[..|k|] == k
  }

  /** `writeFileSync`: creates or replaces a file whose parent directory exists. */
  function WriteFile(t: Tree, at: Option<Key>, content: string): (r: Completion<Tree>)
    ensures r.Returned? <==> at.Some? && ((at.value in t && t[at.value].File?) || (at.value !in t && ParentIsDir(t, at.value)))
    ensures r.Returned? ==> r.value == t[at.value := File(content)]
    ensures WellFormed(t) && r.Returned? ==> WellFormed(r.value)
  {
    if at.None? then Threw("ENOENT")
    else
      var k := at.value;
      if k in t then
        if t[k].Dir? then Threw("EISDIR") else Returned(t[k := File(content)])
      else if ParentIsDir(t, k) then Returned(t[k := File(content)])
      else Threw(MissingCode(t, k))
  }

  /** `appendFileSync`: extends an existing file, or creates it like `WriteFile`. */
  function AppendFile(t: Tree, at: Option<Key>, content: string): (r: Completion<Tree>)
    ensures at.Some? && at.value in t && t[at.value].File? ==>
              r == Returned(t[at.value := File(t[at.value].content + content)])
    ensures at.Some? && at.value !in t ==> r == WriteFile(t, at, content)
    ensures r.Returned? ==> at.Some? && at.value in r.value && r.value[at.value].File?
    ensures WellFormed(t) && r.Returned? ==> WellFormed(r.value)
  {
    if at.Some? && at.value in t && t[at.value].File? then
      Returned(t[at.value := File(t[at.value].content + content)])
    else if at.Some? && at.value in t then Threw("EISDIR")
    else WriteFile(t, at, content)
  }

  /** `mkdirSync(dir, {recursive: true})`: creates every missing directory on
      the way to `k`; fails when a file is in the way. */
  function MkdirP(t: Tree, k: Key): (r: Completion<Tree>)
    ensures r.Returned? ==> k in r.value && r.value[k] == Dir
    ensures r.Returned? ==> forall key :: key in t ==> key in r.value && r.value[key] == t[key]
    ensures r.Returned? ==> forall key :: key in r.value && key !in t ==> key <= k && r.value[key] == Dir
    ensures r.Threw? ==> FileOnPath(t, k, true)
    ensures WellFormed(t) && r.Returned? ==> WellFormed(r.value)
    decreases |k|
  {
    if k in t then
      if t[k].Dir? then Returned(t)
      else
        assert k[..|k|] == k;
        Threw("EEXIST")
    else if |k| == 0 then Returned(t[k := Dir])
    else
      match MkdirP(t, k[..|k| - 1])
      case Threw(code) =>
        assert FileOnPath(t, k[..|k| - 1], true);
        var i :| 0 <= i <= |k| - 1 && k[..|k| - 1][..i] in t && t[k[..|k| - 1][..i]].File?;
        assert k[..|k| - 1][..i] == k[..i];
        Threw(if code == "EEXIST" then "ENOTDIR" else code)
      case Returned(t2) =>
        Returned(t2[k := Dir])
  }

  /** Under a well-formed tree, `MkdirP` succeeds exactly when no file is on the way. */
  lemma {:induction false} MkdirPSucceeds(t: Tree, k: Key)
    requires WellFormed(t)
    requires !FileOnPath(t, k, true)
    ensures MkdirP(t, k).Returned?
    decreases |k|
  {
    if k !in t && |k| > 0 {
      var p := k[..|k| - 1];
      assert !FileOnPath(t, p, true) by {
        forall i | 0 <= i <= |p|
          ensures !(p[..i] in t && t[p[..i]].File?)
        {
          assert p[..i] == k[..i];
        }
      }
      MkdirPSucceeds(t, p);
    }
  }

  /** `mkdirSync` of a location: the empty path names nothing. */
  function MkdirAt(t: Tree, at: Option<Key>): (r: Completion<Tree>)
    ensures at.None? ==> r.Threw?
    ensures at.Some? ==> r == MkdirP(t, at.value)
  {
    if at.None? then Threw("ENOENT") else MkdirP(t, at.value)
  }

  /** `rmSync(path)` without options: removes a file; a directory or a
      missing path is an error. */
  function RemoveFile(t: Tree, at: Option<Key>): (r: Completion<Tree>)
    ensures r.Returned? <==> at.Some? && at.value in t && t[at.value].File?
    ensures r.Returned? ==> r.value == t - {at.value}
    ensures WellFormed(t) && r.Returned? ==> WellFormed(r.value)
  {
    if at.None? || at.value !in t then Threw("ENOENT")
    else if t[at.value].Dir? then Threw("EISDIR")
    else
      var t2 := t - {at.value};
      assert WellFormed(t) ==> WellFormed(t2) by {
        if WellFormed(t) {
          RemoveLeaf(t, at.value);
        }
      }
      Returned(t2)
  }

  /** `rmSync(path, {recursive: true, force: true})`: removes `k` and
      everything below it; never fails. The root itself is kept. */
  function RemoveTree(t: Tree, at: Option<Key>): (r: Tree)
    ensures forall key :: key in r <==> key in t && (key == [] || at.None? || !(at.value <= key))
    ensures forall key :: key in r ==> r[key] == t[key]
    ensures WellFormed(t) ==> WellFormed(r)
  {
    if at.None? then t
    else
      var k := at.value;
      var r := map key | key in t && (key == [] || !(k <= key)) :: t[key];
      assert WellFormed(t) ==> WellFormed(r) by {
        if WellFormed(t) {
          forall key | key in r && |key| > 0
            ensures key[..|key| - 1] in r && r[key[..|key| - 1]] == Dir
          {
            var p := key[..|key| - 1];
            assert k <= p ==> k <= key;
          }
        }
      }
      r
  }

  /** `rmdirSync`: removes an empty directory. */
  function Rmdir(t: Tree, at: Option<Key>): (r: Completion<Tree>)
    ensures r.Returned? <==> at.Some? && at.value in t && t[at.value] == Dir && at.value != [] && !HasChildren(t, at.value)
    ensures r.Returned? ==> r.value == t - {at.value}
    ensures WellFormed(t) && r.Returned? ==> WellFormed(r.value)
  {
    if at.None? || at.value !in t then Threw("ENOENT")
    else if t[at.value].File? then Threw("ENOTDIR")
    else if at.value == [] then Threw("EBUSY")
    else if HasChildren(t, at.value) then Threw("ENOTEMPTY")
    else
      var t2 := t - {at.value};
      assert WellFormed(t) ==> WellFormed(t2) by {
        if WellFormed(t) {
          RemoveLeaf(t, at.value);
        }
      }
      Returned(t2)
  }

  /** Removing an entry with nothing inside it keeps the tree well formed. */
  lemma RemoveLeaf(t: Tree, k: Key)
    requires WellFormed(t) && k in t && k != []
    requires t[k].File? || !HasChildren(t, k)
    ensures WellFormed(t - {k})
  {
    var t2 := t - {k};
    forall key | key in t2 && |key| > 0
      ensures key[..|key| - 1] in t2 && t2[key[..|key| - 1]] == Dir
    {
      if t[k].File? {
        assert t[key[..|key| - 1]] == Dir;
      } else {
        assert !(|key| == |k| + 1 && key[..|k|] == k);
      }
    }
  }

  /** `copyFileSync(source, destination)`: the destination becomes a file
      with the source's content. */
  function CopyFile(t: Tree, source: Option<Key>, destination: Option<Key>): (r: Completion<Tree>)
    ensures r.Returned? ==> source.Some? && source.value in t && t[source.value].File?
    ensures r.Returned? ==> r == WriteFile(t, destination, t[source.value].content)
    ensures source.Some? && source.value in t && t[source.value].File? && WriteFile(t, destination, t[source.value].content).Returned? ==> r.Returned?
    ensures WellFormed(t) && r.Returned? ==> WellFormed(r.value)
  {
    if source.None? || source.value !in t then Threw("ENOENT")
    else if t[source.value].Dir? then Threw("EISDIR")
    else WriteFile(t, destination, t[source.value].content)
  }

  /** In a well-formed tree every prefix of a directory is a directory. */
  lemma {:induction false} PrefixOfParent(t: Tree, k: Key, i: nat)
    requires WellFormed(t) && k in t && t[k] == Dir && i <= |k|
    ensures k[..i] in t && t[k[..i]] == Dir
    decreases |k| - i
  {
    if i < |k| {
      var p := k[..|k| - 1];
      PrefixOfParent(t, p, i);
      assert p[..i] == k[..i];
    } else {
      assert k[..i] == k;
    }
  }

  /** In a well-formed tree every prefix of an entry is an entry. */
  lemma {:induction false} PrefixInTree(t: Tree, key: Key, i: nat)
    requires WellFormed(t) && key in t && i <= |key|
    ensures key[..i] in t
    decreases |key| - i
  {
    if i < |key| {
      PrefixInTree(t, key, i + 1);
      var q := key[..i + 1];
      assert |q| > 0 && q[..|q| - 1] == key[..i];
    } else {
      assert key[..i] == key;
    }
  }

  /** Anything strictly below `k` in a well-formed tree means `k` has a
      child. */
  lemma DescendantIsBelowChild(t: Tree, k: Key)
    requires WellFormed(t)
    ensures forall key :: key in t && k < key ==> HasChildren(t, k)
  {
    forall key | key in t && k < key
      ensures HasChildren(t, k)
    {
      PrefixInTree(t, key, |k| + 1);
      var child := key[..|k| + 1];
      assert child[..|k|] == k;
    }
  }

  /** Removing the subtree of a childless entry removes just that entry. */
  lemma RemoveChildless(t: Tree, k: Key)
    requires WellFormed(t) && k != [] && !HasChildren(t, k)
    ensures RemoveTree(t, Some(k)) == t - {k}
  {
    DescendantIsBelowChild(t, k);
    var r := RemoveTree(t, Some(k));
    forall key
      ensures key in r <==> key in t - {k}
    {
      assert key in t && k <= key && key != k ==> k < key;
    }
  }

  /** Writing a file below a directory of a tree that extends `t`: every
      ancestor is a directory and `t`'s entries are kept. */
  lemma FileBelowDirectories(t: Tree, t1: Tree, segs: seq<string>, content: string)
    requires WellFormed(t1) && |segs| >= 1
    requires segs[..|segs| - 1] in t1 && t1[segs[..|segs| - 1]] == Dir
    requires forall key :: key in t ==> key in t1 && t1[key] == t[key]
    requires segs !in t
    ensures var t2 := t1[segs := File(content)];
            && (forall i :: 0 <= i < |segs| ==> segs[..i] in t2 && t2[segs[..i]] == Dir)
            && (forall key :: key in t ==> key in t2 && t2[key] == t[key])
  {
    var t2 := t1[segs := File(content)];
    var parent := segs[..|segs| - 1];
    forall i | 0 <= i < |segs|
      ensures segs[..i] in t2 && t2[segs[..i]] == Dir
    {
      PrefixOfParent(t1, parent, i);
      assert parent[..i] == segs[..i];
      assert |segs[..i]| != |segs|;
    }
  }

  /** `readFileSync`: the content of a file. */
  function ReadFile(t: Tree, at: Option<Key>): (r: Completion<string>)
    ensures r.Returned? <==> at.Some? && at.value in t && t[at.value].File?
    ensures r.Returned? ==> r.value == t[at.value].content
  {
    if at.None? then Threw("ENOENT")
    else if at.value !in t then Threw(MissingCode(t, at.value))
    else if t[at.value].Dir? then Threw("EISDIR")
    else Returned(t[at.value].content)
  }

  /** The filesystem as the process sees it: the entries change in place,
      the working directory is fixed. */
  class Disk {
    var entries: Tree
    const cwd: string

    ghost predicate Valid()
      reads this
    {
      WellFormed(entries) && IsAbsolute(cwd)
    }

    constructor (cwd: string, entries: Tree)
      requires WellFormed(entries) && IsAbsolute(cwd)
      ensures Valid()
      ensures this.entries == entries && this.cwd == cwd
    {
      this.cwd := cwd;
      this.entries := entries;
    }

    /** `existsSync`/`statSync` on a path. */
    function StatOf(p: string): Stat
      reads this
    {
      StatAt(entries, KeyOf(cwd, p))
    }
  }
}
