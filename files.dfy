/**
 * The part of the file system the server uses, as a map from paths (lists of names below
 * the working directory) to files and directories, with the synchronous Node.js calls
 * the application makes on it: existence checks, recursive directory creation, file
 * unlink, read, write and directory listing.
 */
module Files {
  import opened Wrappers

  type Bytes = seq<bv8>

  /** The names leading from the working directory to an entry; `[]` is the working directory. */
  type Path = seq<string>

  datatype Node = File(data: Bytes) | Directory

  /** `p` with its last name dropped. */
  function Parent(p: Path): Path
    requires p != []
  {
    p[..|p| - 1]
  }

  /** `q` is an entry directly inside `dir`. */
  predicate IsChild(q: Path, dir: Path) {
    |q| == |dir| + 1 && q[..|dir|] == dir
  }

  predicate IsFile(nodes: map<Path, Node>, p: Path) {
    p in nodes && nodes[p].File?
  }

  predicate IsDirectory(nodes: map<Path, Node>, p: Path) {
    p in nodes && nodes[p].Directory?
  }

  /** The paths `p[..1]`, `p[..2]`, ..., `p` itself. */
  function Prefixes(p: Path): (r: set<Path>)
    ensures forall k :: 1 <= k <= |p| ==> p[..k] in r
    ensures forall q :: q in r ==> 1 <= |q| <= |p| && q == p[..|q|]
  {
    set k | 1 <= k <= |p| :: p[..k]
  }

  /** Some prefix of `p`, `p` included, is a file, so no directory can be made at `p`. */
  predicate Blocked(nodes: map<Path, Node>, p: Path) {
    exists q :: q in Prefixes(p) && IsFile(nodes, q)
  }

  /** `mkdirSync(p, { recursive: true })`: every missing prefix becomes a directory; nothing changes when a prefix is a file. */
  function MadeDirectory(nodes: map<Path, Node>, p: Path): (r: map<Path, Node>)
    ensures Blocked(nodes, p) ==> r == nodes
    ensures !Blocked(nodes, p) ==> forall q :: q in Prefixes(p) ==> IsDirectory(r, q)
    ensures forall q :: q in nodes ==> q in r && r[q] == nodes[q]
    ensures forall q :: q in r && q !in nodes ==> q in Prefixes(p) && r[q] == Directory
  {
    if Blocked(nodes, p) then nodes
    else nodes + map q | q in Prefixes(p) && q !in nodes :: Directory
  }

  /** Making a directory keeps every entry inside a directory. */
  lemma MadeDirectoryKeepsParents(nodes: map<Path, Node>, p: Path)
    requires IsDirectory(nodes, [])
    requires forall q :: q in nodes && q != [] ==> IsDirectory(nodes, Parent(q))
    ensures forall q :: q in MadeDirectory(nodes, p) && q != [] ==> IsDirectory(MadeDirectory(nodes, p), Parent(q))
  {
    var r := MadeDirectory(nodes, p);
    forall q | q in r && q != []
      ensures IsDirectory(r, Parent(q))
    {
      if q !in nodes {
        assert q in Prefixes(p);
        var k := |q| - 1;
        assert Parent(q) == p[..k];
        if k > 0 {
          assert p[..k] in Prefixes(p);
        }
      }
    }
  }

  /** The names listed by `readdirSync(dir)`. */
  function Listing(nodes: map<Path, Node>, dir: Path): set<string> {
    set q | q in nodes && IsChild(q, dir) :: q[|dir|]
  }

  /** A name is listed exactly when the entry it names inside `dir` exists. */
  lemma ListingNames(nodes: map<Path, Node>, dir: Path, name: string)
    ensures name in Listing(nodes, dir) <==> dir + [name] in nodes
  {
    var q := dir + [name];
    assert q[..|dir|] == dir && q[|dir|] == name;
    if name in Listing(nodes, dir) {
      var q' :| q' in nodes && IsChild(q', dir) && q'[|dir|] == name;
      assert q' == q;
    }
  }

  /** The entries of the file system, updated in place by the calls the server makes. */
  class Disk {
    var nodes: map<Path, Node>
    /** `process.cwd()`. */
    const cwd: string

    constructor(cwd: string, nodes: map<Path, Node>)
      ensures this.cwd == cwd && this.nodes == nodes
    {
      this.cwd := cwd;
      this.nodes := nodes;
    }

    /** Every entry but the working directory sits inside a directory. */
    ghost predicate Valid()
      reads this
    {
      IsDirectory(nodes, []) && forall q :: q in nodes && q != [] ==> IsDirectory(nodes, Parent(q))
    }

    /** `existsSync(p)`: true for files and directories alike. */
    function Exists(p: Path): bool
      reads this
    {
      p in nodes
    }

    /** `readFileSync(p)`: the contents of a file; reading a missing entry or a directory fails. */
    function Read(p: Path): (r: Option<Bytes>)
      reads this
      ensures r.Some? <==> IsFile(nodes, p)
      ensures r.Some? ==> nodes[p] == File(r.value)
    {
      if IsFile(nodes, p) then Some(nodes[p].data) else None
    }

    /** `mkdirSync(p, { recursive: true })`; fails, changing nothing, when a prefix of `p` is a file. */
    method MakeDirectory(p: Path) returns (ok: bool)
      requires Valid()
      modifies this
      ensures Valid()
      ensures ok <==> !Blocked(old(nodes), p)
      ensures nodes == MadeDirectory(old(nodes), p)
    {
      ok := !Blocked(nodes, p);
      MadeDirectoryKeepsParents(nodes, p);
      nodes := MadeDirectory(nodes, p);
    }

    /** `unlinkSync(p)`: removes a file; fails on a directory or a missing entry. */
    method Unlink(p: Path) returns (ok: bool)
      requires Valid()
      modifies this
      ensures Valid()
      ensures ok <==> IsFile(old(nodes), p)
      ensures nodes == if ok then old(nodes) - {p} else old(nodes)
    {
      ok := IsFile(nodes, p);
      if ok {
        nodes := nodes - {p};
      }
    }

    /** `writeFile(p, data)`: creates or replaces a file whose parent is a directory. */
    method Write(p: Path, data: Bytes) returns (ok: bool)
      requires Valid()
      modifies this
      ensures Valid()
      ensures ok <==> p != [] && IsDirectory(old(nodes), Parent(p)) && !IsDirectory(old(nodes), p)
      ensures nodes == if ok then old(nodes)[p := File(data)] else old(nodes)
    {
      ok := p != [] && IsDirectory(nodes, Parent(p)) && !IsDirectory(nodes, p);
      if ok {
        nodes := nodes[p := File(data)];
      }
    }
  }
}
