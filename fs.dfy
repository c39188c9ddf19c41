/**
 * The filesystem the synchroniser works on, as an abstract map from paths
 * (sequences of names) to nodes. The path [] stands for the filesystem root
 * and is never looked up. The fs/promises calls the synchroniser makes on the
 * destination (mkdir, rm, symlink, copyFile, stat) are the methods and
 * functions of class FileSystem.
 */
module Fs {
  import opened Wrappers

  newtype byte = b: int | 0 <= b < 256

  type Name = string
  type Path = seq<Name>

  /** A file carries its modification time (whole milliseconds), size and bytes. */
  datatype Node =
    | File(mtime: int, size: nat, content: seq<byte>)
    | Dir
    | Symlink(target: string)

  type Tree = map<Path, Node>

  /** The part of a stat result that change detection uses. */
  datatype Signature = Signature(mtime: int, size: nat)

  /** What one copyFile call reports: success, or an error carrying its `code` ("EBUSY", "ENOENT", ...). */
  datatype IoResult = Ok | Error(code: string)

  function Get(t: Tree, p: Path): Option<Node> {
    if p in t then Some(t[p]) else None
  }

  /** stat(p).catch(() => null): a missing path has no signature. */
  function StatOf(n: Option<Node>): Option<Signature> {
    match n
    case Some(File(m, s, _)) => Some(Signature(m, s))
    case _ => None
  }

  /** The node copyFile leaves at the destination: same bytes, stamped `now`. */
  function CopyOf(f: Node, now: int): (r: Node)
    requires f.File?
    ensures r.File? && r.size == f.size && r.content == f.content
  {
    File(now, f.size, f.content)
  }

  /** Every non-empty prefix of p, p itself included, is a directory of t. */
  ghost predicate DirsAlong(t: Tree, p: Path) {
    forall j :: 0 < j <= |p| ==> p[..j] in t && t[p[..j]] == Dir
  }

  /** `mkdir(p, {recursive: true})` succeeds: no prefix of p is occupied by a non-directory. */
  predicate CanMkdir(t: Tree, p: Path) {
    forall j :: 0 < j <= |p| ==> p[..j] !in t || t[p[..j]] == Dir
  }

  function Prefixes(p: Path): (r: set<Path>)
    ensures forall k :: k in r <==> exists j :: 0 < j <= |p| && k == p[..j]
  {
    set j | 0 < j <= |p| :: p[..j]
  }

  /** The tree after a successful recursive mkdir of p: every missing prefix becomes a directory. */
  function MkdirAll(t: Tree, p: Path): (r: Tree)
    requires CanMkdir(t, p)
    ensures DirsAlong(r, p)
    ensures forall k :: k in t ==> k in r && r[k] == t[k]
    ensures forall k :: k !in Prefixes(p) ==> Get(r, k) == Get(t, k)
  {
    map k | k in t.Keys + Prefixes(p) :: if k in t then t[k] else Dir
  }

  /** When the parents of p + [n] are already directories, mkdir only touches p + [n]. */
  lemma MkdirChild(t: Tree, p: Path, n: Name)
    requires DirsAlong(t, p)
    ensures CanMkdir(t, p + [n]) <==> (p + [n] !in t || t[p + [n]] == Dir)
    ensures CanMkdir(t, p + [n]) ==> MkdirAll(t, p + [n]) == t[p + [n] := Dir]
  {
    var c := p + [n];
    forall j | 0 < j < |c| ensures c[..j] == p[..j] {
      assert c[..j] == p[..j];
    }
    assert c[..|c|] == c;
    if CanMkdir(t, c) {
      var r := MkdirAll(t, c);
      forall k ensures Get(r, k) == Get(t[c := Dir], k) {
        if k in Prefixes(c) {
          var j :| 0 < j <= |c| && k == c[..j];
          assert k in r && r[k] == Dir;
        }
      }
      MapsEqual(r, t[c := Dir]);
    }
  }

  /** A recursive mkdir of a path whose prefixes are all directories changes nothing. */
  lemma MkdirExisting(t: Tree, p: Path)
    requires DirsAlong(t, p)
    ensures CanMkdir(t, p) && MkdirAll(t, p) == t
  {
    var r := MkdirAll(t, p);
    forall k ensures Get(r, k) == Get(t, k) {
      if k in Prefixes(p) {
        var j :| 0 < j <= |p| && k == p[..j];
      }
    }
    MapsEqual(r, t);
  }

  /** Two trees that agree on every path are equal. */
  lemma MapsEqual(a: Tree, b: Tree)
    requires forall k :: Get(a, k) == Get(b, k)
    ensures a == b
  {
    assert a.Keys == b.Keys by {
      forall k ensures k in a <==> k in b {
        assert Get(a, k) == Get(b, k);
      }
    }
    forall k | k in a ensures a[k] == b[k] {
      assert Get(a, k) == Get(b, k);
    }
  }

  /** The destination filesystem, which the synchroniser updates in place. */
  class FileSystem {
    var nodes: Tree

    constructor (initial: Tree)
      ensures nodes == initial
    {
      nodes := initial;
    }

    /** fs.stat(p), with a missing path (or one that is not a regular file) giving no signature. */
    function Stat(p: Path): Option<Signature>
      reads this
    {
      StatOf(Get(nodes, p))
    }

    /** fs.mkdir(p, {recursive: true}): creates every missing prefix, or fails and changes nothing. */
    method MkdirRecursive(p: Path) returns (ok: bool)
      modifies this
      ensures ok == CanMkdir(old(nodes), p)
      ensures nodes == if ok then MkdirAll(old(nodes), p) else old(nodes)
    {
      ok := CanMkdir(nodes, p);
      if ok {
        nodes := MkdirAll(nodes, p);
      }
    }

    /** fs.rm(p, {force: true}): a missing path is fine; a directory is refused (no `recursive`). */
    method Remove(p: Path) returns (ok: bool)
      modifies this
      ensures ok == (p !in old(nodes) || old(nodes)[p] != Dir)
      ensures nodes == if ok then old(nodes) - {p} else old(nodes)
    {
      ok := p !in nodes || nodes[p] != Dir;
      if ok {
        nodes := nodes - {p};
      }
    }

    /** fs.symlink(target, p): fails (EEXIST) when p is occupied. */
    method Symlink(target: string, p: Path) returns (ok: bool)
      modifies this
      ensures ok == (p !in old(nodes))
      ensures nodes == if ok then old(nodes)[p := Node.Symlink(target)] else old(nodes)
    {
      ok := p !in nodes;
      if ok {
        nodes := nodes[p := Node.Symlink(target)];
      }
    }

    /** One fs.copyFile attempt whose result is `outcome`; a failed attempt leaves p as it was. */
    method CopyFile(from: Node, p: Path, now: int, outcome: IoResult)
      requires from.File?
      modifies this
      ensures nodes == if outcome == Ok then old(nodes)[p := CopyOf(from, now)] else old(nodes)
    {
      if outcome == Ok {
        nodes := nodes[p := CopyOf(from, now)];
      }
    }
  }
}
