/**
 * The staging directories the upload pipeline works in: creating them when missing,
 * creating one on demand, and emptying them after an upload.
 */
module Staging {
  import opened Wrappers
  import opened Files

  const Docs: Path := ["docs"]
  const Parsed: Path := ["docs", "parsed"]
  const Uploaded: Path := ["docs", "uploaded"]
  const Tmp: Path := ["tmp"]

  /** The directories created before, and emptied after, each upload, in this order. */
  const Required: seq<Path> := [Docs, Parsed, Uploaded, Tmp]

  /** `path.join(cwd, ...names)` for names that hold no separator. */
  function FullPath(cwd: string, p: Path): (r: string)
    ensures |r| >= |cwd| && r[..|cwd|] == cwd
  {
    if p == [] then cwd else FullPath(cwd, Parent(p)) + "/" + p[|p| - 1]
  }

  /** One directory made sure of: nothing happens when anything exists at `dir`. */
  function Ensure(nodes: map<Path, Node>, dir: Path): map<Path, Node> {
    if dir in nodes then nodes else MadeDirectory(nodes, dir)
  }

  /** The directories `dirs` made sure of in order; a directory that cannot be made is skipped. */
  function EnsureAll(nodes: map<Path, Node>, dirs: seq<Path>): (r: map<Path, Node>)
    ensures forall q :: q in nodes ==> q in r && r[q] == nodes[q]
    ensures forall q :: q in r && q !in nodes ==> r[q] == Directory
    decreases |dirs|
  {
    if dirs == [] then nodes else EnsureAll(Ensure(nodes, dirs[0]), dirs[1..])
  }

  /** The entry exists, or a file sits on its way. */
  predicate Settled(nodes: map<Path, Node>, dir: Path) {
    dir in nodes || Blocked(nodes, dir)
  }

  /** A path is one of its own prefixes. */
  lemma OwnPrefix(dir: Path)
    requires dir != []
    ensures dir in Prefixes(dir)
  {
    assert dir[..|dir|] == dir;
  }

  /** Making sure of a directory settles it. */
  lemma EnsureSettles(nodes: map<Path, Node>, dir: Path)
    requires dir != []
    ensures Settled(Ensure(nodes, dir), dir)
    ensures !Blocked(nodes, dir) ==> IsDirectory(Ensure(nodes, dir), dir) || IsFile(nodes, dir)
  {
    OwnPrefix(dir);
  }

  /** Adding directories leaves the files, hence the blocked paths, as they were. */
  lemma SettledKept(a: map<Path, Node>, b: map<Path, Node>, dir: Path)
    requires forall q :: q in a ==> q in b && b[q] == a[q]
    requires forall q :: q in b && q !in a ==> b[q] == Directory
    requires Settled(a, dir)
    ensures Settled(b, dir)
  {
    if dir !in a {
      var q :| q in Prefixes(dir) && IsFile(a, q);
      assert IsFile(b, q);
    }
  }

  /** After making sure of `dirs`, each of them exists unless a file blocks it. */
  lemma {:induction false} EnsureAllSettles(nodes: map<Path, Node>, dirs: seq<Path>)
    requires forall i :: 0 <= i < |dirs| ==> dirs[i] != []
    ensures forall i :: 0 <= i < |dirs| ==> Settled(EnsureAll(nodes, dirs), dirs[i])
    decreases |dirs|
  {
    if dirs != [] {
      var next := Ensure(nodes, dirs[0]);
      forall i | 0 <= i < |dirs[1..]|
        ensures dirs[1..][i] != []
      {
        assert dirs[1..][i] == dirs[i + 1];
      }
      EnsureAllSettles(next, dirs[1..]);
      var r := EnsureAll(next, dirs[1..]);
      assert r == EnsureAll(nodes, dirs);
      EnsureSettles(nodes, dirs[0]);
      SettledKept(next, r, dirs[0]);
      forall i | 1 <= i < |dirs|
        ensures Settled(r, dirs[i])
      {
        assert dirs[i] == dirs[1..][i - 1];
      }
    }
  }

  /** Making sure of directories that are all settled changes nothing. */
  lemma {:induction false} EnsureAllSettled(nodes: map<Path, Node>, dirs: seq<Path>)
    requires forall i :: 0 <= i < |dirs| ==> Settled(nodes, dirs[i])
    ensures EnsureAll(nodes, dirs) == nodes
    decreases |dirs|
  {
    if dirs != [] {
      assert Ensure(nodes, dirs[0]) == nodes;
      forall i | 0 <= i < |dirs[1..]|
        ensures Settled(nodes, dirs[1..][i])
      {
        assert dirs[1..][i] == dirs[i + 1];
      }
      EnsureAllSettled(nodes, dirs[1..]);
    }
  }

  /** Making sure of the same directories twice is the same as once. */
  lemma EnsureAllIdempotent(nodes: map<Path, Node>, dirs: seq<Path>)
    requires forall i :: 0 <= i < |dirs| ==> dirs[i] != []
    ensures EnsureAll(EnsureAll(nodes, dirs), dirs) == EnsureAll(nodes, dirs)
  {
    EnsureAllSettles(nodes, dirs);
    EnsureAllSettled(EnsureAll(nodes, dirs), dirs);
  }

  /** When no file blocks any of `dirs`, all of them are directories afterwards. */
  lemma {:induction false} EnsureAllMakes(nodes: map<Path, Node>, dirs: seq<Path>)
    requires forall i :: 0 <= i < |dirs| ==> dirs[i] != [] && !IsFile(nodes, dirs[i])
    ensures forall i :: 0 <= i < |dirs| ==> IsDirectory(EnsureAll(nodes, dirs), dirs[i]) || Blocked(nodes, dirs[i])
    decreases |dirs|
  {
    if dirs != [] {
      var next := Ensure(nodes, dirs[0]);
      var r := EnsureAll(nodes, dirs);
      forall i | 0 <= i < |dirs[1..]|
        ensures dirs[1..][i] != [] && !IsFile(next, dirs[1..][i])
      {
        assert dirs[1..][i] == dirs[i + 1];
      }
      EnsureAllMakes(next, dirs[1..]);
      EnsureSettles(nodes, dirs[0]);
      forall i | 1 <= i < |dirs|
        ensures IsDirectory(r, dirs[i]) || Blocked(nodes, dirs[i])
      {
        assert dirs[i] == dirs[1..][i - 1];
        if Blocked(next, dirs[i]) {
          var q :| q in Prefixes(dirs[i]) && IsFile(next, q);
          assert IsFile(nodes, q);
        }
      }
    }
  }

  /** `ensureDirectoriesExist()`: every missing staging directory is created; a failure to create one is not reported. */
  method EnsureDirectoriesExist(disk: Disk)
    requires disk.Valid()
    modifies disk
    ensures disk.Valid()
    ensures disk.nodes == EnsureAll(old(disk.nodes), Required)
  {
    for i := 0 to |Required|
      invariant disk.Valid()
      invariant EnsureAll(disk.nodes, Required[i..]) == EnsureAll(old(disk.nodes), Required)
    {
      assert Required[i..][1..] == Required[i + 1..];
      if !disk.Exists(Required[i]) {
        var _ := disk.MakeDirectory(Required[i]);
      }
    }
  }

  /** `ensureDirectoryExists(dir)`: the full path, after creating the directory when nothing exists there. */
  method EnsureDirectoryExists(disk: Disk, dir: Path) returns (r: Result<string>)
    requires disk.Valid()
    modifies disk
    ensures disk.Valid()
    ensures disk.nodes == Ensure(old(disk.nodes), dir)
    ensures r.Err? <==> dir !in old(disk.nodes) && Blocked(old(disk.nodes), dir)
    ensures r.Ok? ==> r.value == FullPath(disk.cwd, dir) && dir in disk.nodes
  {
    var full := FullPath(disk.cwd, dir);
    if !disk.Exists(dir) {
      EnsureSettles(disk.nodes, dir);
      var ok := disk.MakeDirectory(dir);
      if !ok {
        return Err("cannot create " + full);
      }
    }
    return Ok(full);
  }

  /** `readdirSync` then `unlinkSync` on every entry can only succeed on a missing entry or a directory holding files only. */
  predicate Clearable(nodes: map<Path, Node>, dir: Path) {
    dir !in nodes || (nodes[dir].Directory? && forall q :: q in nodes && IsChild(q, dir) ==> nodes[q].File?)
  }

  /** `b` is `a` with some entries removed and nothing else changed. */
  predicate Shrunk(a: map<Path, Node>, b: map<Path, Node>) {
    forall q :: q in b ==> q in a && b[q] == a[q]
  }

  /** An entry inside `dir` is `dir` followed by its name. */
  lemma ChildByName(q: Path, dir: Path)
    requires IsChild(q, dir)
    ensures q == dir + [q[|dir|]]
  {
  }

  /** Every entry but the working directory is inside its parent. */
  lemma ChildOfParent(q: Path)
    requires q != []
    ensures IsChild(q, Parent(q))
  {
  }

  /** Every entry missing from `b` was a file inside `dir` in `a`. */
  predicate RemovedChildren(a: map<Path, Node>, b: map<Path, Node>, dir: Path) {
    forall q :: q in a && q !in b ==> IsChild(q, dir) && a[q].File?
  }

  /** `names` are exactly the names still inside `dir` in `b`. */
  predicate Listed(b: map<Path, Node>, dir: Path, names: set<string>) {
    (forall name :: name in names ==> dir + [name] in b) &&
    (forall q :: q in b && IsChild(q, dir) ==> q[|dir|] in names)
  }

  /** The listing taken by `readdirSync`. */
  lemma ListingListed(b: map<Path, Node>, dir: Path)
    ensures Listed(b, dir, Listing(b, dir))
  {
    forall name | name in Listing(b, dir)
      ensures dir + [name] in b
    {
      ListingNames(b, dir, name);
    }
  }

  /** Unlinking one listed file keeps the listing of what is left. */
  lemma UnlinkedListed(a: map<Path, Node>, b: map<Path, Node>, dir: Path, names: set<string>, name: string)
    requires Shrunk(a, b) && RemovedChildren(a, b, dir) && Listed(b, dir, names)
    requires name in names && IsFile(b, dir + [name])
    ensures Shrunk(a, b - {dir + [name]}) && RemovedChildren(a, b - {dir + [name]}, dir)
    ensures Listed(b - {dir + [name]}, dir, names - {name})
  {
    var q := dir + [name];
    assert IsChild(q, dir) by { assert q[..|dir|] == dir; }
    forall q' | q' in b - {q} && IsChild(q', dir)
      ensures q'[|dir|] in names - {name}
    {
      ChildByName(q', dir);
    }
  }

  /** Clears one directory: its file entries are unlinked in listing order, and the first entry that is not a file aborts. */
  method ClearDirectory(disk: Disk, dir: Path) returns (ok: bool)
    requires disk.Valid()
    modifies disk
    ensures disk.Valid()
    ensures ok <==> Clearable(old(disk.nodes), dir)
    ensures Shrunk(old(disk.nodes), disk.nodes)
    ensures RemovedChildren(old(disk.nodes), disk.nodes, dir)
    ensures ok ==> forall q :: q in disk.nodes ==> !IsChild(q, dir)
  {
    if !disk.Exists(dir) {
      return true;
    }
    if disk.nodes[dir].File? {
      return false;
    }
    var names := Listing(disk.nodes, dir);
    ListingListed(disk.nodes, dir);
    while names != {}
      invariant disk.Valid()
      invariant Shrunk(old(disk.nodes), disk.nodes)
      invariant dir in disk.nodes
      invariant RemovedChildren(old(disk.nodes), disk.nodes, dir)
      invariant Listed(disk.nodes, dir, names)
      decreases names
    {
      var name :| name in names;
      if !IsFile(disk.nodes, dir + [name]) {
        assert IsChild(dir + [name], dir) by { assert (dir + [name])[..|dir|] == dir; }
        ok := disk.Unlink(dir + [name]);
        return;
      }
      UnlinkedListed(old(disk.nodes), disk.nodes, dir, names, name);
      ok := disk.Unlink(dir + [name]);
      names := names - {name};
    }
    return true;
  }

  /** Every entry missing from `b` was a file inside one of `dirs` in `a`. */
  predicate RemovedFiles(a: map<Path, Node>, b: map<Path, Node>, dirs: seq<Path>) {
    forall q :: q in a && q !in b ==> q != [] && Parent(q) in dirs && a[q].File?
  }

  /** None of `dirs` holds anything in `b`. */
  predicate Emptied(b: map<Path, Node>, dirs: seq<Path>) {
    forall q :: q in b && q != [] ==> Parent(q) !in dirs
  }

  /** Clearing one more directory extends what has been cleared. */
  lemma ClearedOneMore(a: map<Path, Node>, b: map<Path, Node>, c: map<Path, Node>, dirs: seq<Path>, dir: Path)
    requires Shrunk(a, b) && RemovedFiles(a, b, dirs) && Emptied(b, dirs)
    requires Shrunk(b, c)
    requires forall q :: q in b && q !in c ==> IsChild(q, dir) && b[q].File?
    requires forall q :: q in c ==> !IsChild(q, dir)
    ensures Shrunk(a, c) && RemovedFiles(a, c, dirs + [dir]) && Emptied(c, dirs + [dir])
  {
    forall q | q in c && q != []
      ensures Parent(q) != dir
    {
      ChildOfParent(q);
    }
    forall q | q in a && q !in c && q in b
      ensures q != [] && Parent(q) == dir
    {
      assert IsChild(q, dir);
    }
  }

  /** When clearing stops at `Required[i]`, only files inside the directories reached are gone. */
  lemma ClearStopped(a: map<Path, Node>, b: map<Path, Node>, c: map<Path, Node>, i: nat)
    requires i < |Required|
    requires Shrunk(a, b) && RemovedFiles(a, b, Required[..i])
    requires i == 0 ==> b == a
    requires i > 0 ==> Clearable(a, Docs)
    requires Shrunk(b, c) && RemovedChildren(b, c, Required[i])
    ensures Shrunk(a, c) && RemovedFiles(a, c, Required)
    ensures DocsHoldsDirectory(a) ==> RemovedChildren(a, c, Docs)
  {
    forall q | q in a && q !in c
      ensures q != [] && Parent(q) in Required && a[q].File?
    {
      if q in b {
        assert IsChild(q, Required[i]);
        assert q[..|Required[i]|] == Required[i];
      }
    }
    if DocsHoldsDirectory(a) {
      var q :| q in a && IsChild(q, Docs) && a[q].Directory?;
      assert i == 0;
    }
  }

  /** Every staging directory is missing or holds only files. */
  predicate AllClearable(nodes: map<Path, Node>) {
    forall i :: 0 <= i < |Required| ==> Clearable(nodes, Required[i])
  }

  /** Removing entries keeps a directory clearable. */
  lemma ClearableShrunk(a: map<Path, Node>, b: map<Path, Node>, dir: Path)
    requires Clearable(a, dir) && Shrunk(a, b)
    ensures Clearable(b, dir)
  {
  }

  /** The staging layout is in place and `docs` holds a directory. */
  predicate DocsHoldsDirectory(nodes: map<Path, Node>) {
    IsDirectory(nodes, Docs) && exists q :: q in nodes && IsChild(q, Docs) && nodes[q].Directory?
  }

  /**
   * `clearRequiredDirectories()`: clears the staging directories in order; the first entry
   * that cannot be unlinked throws out of the whole operation.
   */
  method ClearRequiredDirectories(disk: Disk) returns (ok: bool)
    requires disk.Valid()
    modifies disk
    ensures disk.Valid()
    ensures Shrunk(old(disk.nodes), disk.nodes)
    ensures RemovedFiles(old(disk.nodes), disk.nodes, Required)
    ensures ok ==> Emptied(disk.nodes, Required)
    ensures DocsHoldsDirectory(old(disk.nodes)) ==> !ok && RemovedChildren(old(disk.nodes), disk.nodes, Docs)
    ensures AllClearable(old(disk.nodes)) ==> ok
  {
    ok := true;
    for i := 0 to |Required|
      invariant disk.Valid()
      invariant Shrunk(old(disk.nodes), disk.nodes)
      invariant RemovedFiles(old(disk.nodes), disk.nodes, Required[..i])
      invariant Emptied(disk.nodes, Required[..i])
      invariant i == 0 ==> disk.nodes == old(disk.nodes)
      invariant i > 0 ==> Clearable(old(disk.nodes), Docs)
    {
      ghost var before := disk.nodes;
      if AllClearable(old(disk.nodes)) {
        ClearableShrunk(old(disk.nodes), before, Required[i]);
      }
      ok := ClearDirectory(disk, Required[i]);
      if !ok {
        ClearStopped(old(disk.nodes), before, disk.nodes, i);
        return;
      }
      ClearedOneMore(old(disk.nodes), before, disk.nodes, Required[..i], Required[i]);
      assert Required[..i + 1] == Required[..i] + [Required[i]];
    }
    assert Required[..|Required|] == Required;
  }
}
