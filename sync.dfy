/**
 * syncDirectory: walks the source tree and makes the destination mirror it.
 * Each entry below the source root is excluded, relinked (a symlink),
 * created and recursed into (a directory), or skipped or copied (a regular
 * file). The walk is sequential; the order of the entries of one directory is
 * left open.
 *
 * The specification is an overlay: for a set S of source entries,
 * Apply(d, S) is the destination d with each entry's Effect written at its
 * destination path, which depends only on what was there before because
 * distinct entries have distinct destination paths.
 */
module Sync {
  import opened Wrappers
  import opened Fs
  import opened Retry
  import opened Exclusion
  import opened Delta

  /** The options of one run, with the destination root. */
  datatype Request = Request(destRoot: Path, exclude: seq<string>, concurrency: nat)

  /**
   * What the run takes from outside: the source tree keyed by paths relative
   * to the source root (the key [] is the root itself), the clock reading that
   * copies are stamped with, and what attempt i of copying entry q reports.
   */
  datatype Env = Env(source: Tree, now: int, outcome: (Path, nat) -> IoResult)

  datatype SyncError =
    | MkdirFailed(path: Path)
    | ReadDirFailed(rel: Path)
    | CopyFailed(rel: Path, code: IoResult)

  function DestPath(req: Request, q: Path): Path {
    req.destRoot + q
  }

  /** readdir can list rel: it is a directory of the source. */
  predicate SourceDir(env: Env, rel: Path) {
    rel in env.source && env.source[rel] == Dir
  }

  /** readdir(rel): the names of rel's entries. */
  function Children(env: Env, rel: Path): (r: set<Name>)
    ensures forall n :: n in r <==> rel + [n] in env.source
  {
    var r := set k | k in env.source.Keys && |k| == |rel| + 1 && k[..|rel|] == rel :: k[|rel|];
    assert forall n :: rel + [n] in env.source ==> (rel + [n])[..|rel|] == rel && (rel + [n])[|rel|] == n;
    assert forall k :: k in env.source.Keys && |k| == |rel| + 1 && k[..|rel|] == rel ==> k == rel + [k[|rel|]];
    r
  }

  /** The outcomes of the copy attempts for entry q. */
  function Attempts(env: Env, q: Path): nat -> IoResult {
    (i: nat) => env.outcome(q, i)
  }

  /**
   * q, strictly below rel, is reached by a walk of rel: every path from the
   * child of rel down to q is a source entry that is not excluded, and every
   * one above q is a directory.
   */
  ghost predicate ReachedFrom(env: Env, req: Request, rel: Path, q: Path) {
    rel < q &&
    forall j :: |rel| < j <= |q| ==>
      q[..j] in env.source && !Excluded(req.exclude, q[j - 1], q[..j]) &&
      (j < |q| ==> env.source[q[..j]] == Dir)
  }

  /** Every entry a walk of rel visits. */
  ghost function Subtree(env: Env, req: Request, rel: Path): (s: set<Path>)
    ensures forall q :: q in s <==> q in env.source && ReachedFrom(env, req, rel, q)
  {
    set q | q in env.source.Keys && ReachedFrom(env, req, rel, q)
  }

  /** The entries of the subtree that lie under rel's child n. */
  ghost function Closure(env: Env, req: Request, rel: Path, n: Name): set<Path> {
    set q | q in Subtree(env, req, rel) && q[|rel|] == n
  }

  /** The source paths strictly below rel: the walk's termination measure. */
  ghost function Below(env: Env, rel: Path): set<Path> {
    set k | k in env.source.Keys && rel < k
  }

  /** Regular file q is copied when its destination, currently cur, is not current. */
  predicate ToCopy(env: Env, q: Path, cur: Option<Node>)
    requires q in env.source
  {
    var n := env.source[q];
    n.File? && !Skip(Signature(n.mtime, n.size), StatOf(cur))
  }

  /**
   * Entry q fails the run when its destination, currently cur, blocks mkdir
   * or its copy fails; symlink entries never fail.
   */
  predicate Fails(env: Env, q: Path, cur: Option<Node>)
    requires q in env.source
  {
    match env.source[q]
    case Dir => cur.Some? && cur.value != Dir
    case Symlink(_) => false
    case File(_, _, _) => ToCopy(env, q, cur) && Run(Attempts(env, q), DefaultMaxRetries, 0).status.Failed?
  }

  /** What entry q leaves at its destination path, currently cur, when it does not fail. */
  function Effect(env: Env, q: Path, cur: Option<Node>): Node
    requires q in env.source
  {
    match env.source[q]
    case Dir => Dir
    case Symlink(t) => if cur == Some(Dir) then Dir else Node.Symlink(t)
    case File(_, _, _) => if ToCopy(env, q, cur) then CopyOf(env.source[q], env.now) else cur.value
  }

  /** k is the destination path of an entry of S. */
  ghost predicate Owned(req: Request, S: set<Path>, k: Path) {
    req.destRoot <= k && k[|req.destRoot|..] in S
  }

  ghost function Image(req: Request, S: set<Path>): (r: set<Path>)
    ensures forall k :: k in r <==> Owned(req, S, k)
  {
    assert forall k :: Owned(req, S, k) ==> k == DestPath(req, k[|req.destRoot|..]);
    set q | q in S :: DestPath(req, q)
  }

  ghost predicate InSource(env: Env, S: set<Path>) {
    forall q :: q in S ==> q in env.source
  }

  /** The destination d after every entry of S has had its effect. */
  ghost function Apply(env: Env, req: Request, d: Tree, S: set<Path>): Tree
    requires InSource(env, S)
  {
    map k | k in d.Keys + Image(req, S) ::
      if Owned(req, S, k) then Effect(env, k[|req.destRoot|..], Get(d, k)) else d[k]
  }

  /** No entry of S fails on destination d. */
  ghost predicate NoneFails(env: Env, req: Request, d: Tree, S: set<Path>)
    requires InSource(env, S)
  {
    forall q :: q in S ==> !Fails(env, q, Get(d, DestPath(req, q)))
  }

  /** The entries of S that are copied on destination d. */
  ghost function Copies(env: Env, req: Request, d: Tree, S: set<Path>): set<Path>
    requires InSource(env, S)
  {
    set q | q in S && ToCopy(env, q, Get(d, DestPath(req, q)))
  }

  // ---- The overlay, path by path ----

  lemma ApplyGet(env: Env, req: Request, d: Tree, S: set<Path>, k: Path)
    requires InSource(env, S)
    ensures Get(Apply(env, req, d, S), k) ==
      if Owned(req, S, k) then Some(Effect(env, k[|req.destRoot|..], Get(d, k))) else Get(d, k)
  {
  }

  lemma ApplyAt(env: Env, req: Request, d: Tree, S: set<Path>, q: Path)
    requires InSource(env, S) && q in S
    ensures DestPath(req, q) in Apply(env, req, d, S)
    ensures Apply(env, req, d, S)[DestPath(req, q)] == Effect(env, q, Get(d, DestPath(req, q)))
  {
    var k := DestPath(req, q);
    assert k[|req.destRoot|..] == q;
    ApplyGet(env, req, d, S, k);
  }

  /** Destination paths of entries outside S keep what d had there. */
  lemma ApplyOutside(env: Env, req: Request, d: Tree, S: set<Path>, q: Path)
    requires InSource(env, S) && q !in S
    ensures Get(Apply(env, req, d, S), DestPath(req, q)) == Get(d, DestPath(req, q))
  {
    var k := DestPath(req, q);
    assert k[|req.destRoot|..] == q;
    ApplyGet(env, req, d, S, k);
  }

  lemma ApplyEmpty(env: Env, req: Request, d: Tree)
    ensures Apply(env, req, d, {}) == d
  {
    forall k ensures Get(Apply(env, req, d, {}), k) == Get(d, k) {
      ApplyGet(env, req, d, {}, k);
    }
    MapsEqual(Apply(env, req, d, {}), d);
  }

  /** Adding one entry to the overlay writes its effect at its destination path. */
  lemma ApplyStep(env: Env, req: Request, d: Tree, S: set<Path>, q: Path)
    requires InSource(env, S) && q in env.source && q !in S
    ensures Apply(env, req, d, S + {q}) ==
      Apply(env, req, d, S)[DestPath(req, q) := Effect(env, q, Get(d, DestPath(req, q)))]
  {
    var a := Apply(env, req, d, S + {q});
    var b := Apply(env, req, d, S)[DestPath(req, q) := Effect(env, q, Get(d, DestPath(req, q)))];
    forall k ensures Get(a, k) == Get(b, k) {
      ApplyGet(env, req, d, S + {q}, k);
      ApplyGet(env, req, d, S, k);
      if k == DestPath(req, q) {
        assert k[|req.destRoot|..] == q;
      }
    }
    MapsEqual(a, b);
  }

  /** Overlaying two disjoint sets of entries one after the other is overlaying their union. */
  lemma ApplyTwice(env: Env, req: Request, d: Tree, A: set<Path>, B: set<Path>)
    requires InSource(env, A) && InSource(env, B) && A !! B
    ensures Apply(env, req, Apply(env, req, d, A), B) == Apply(env, req, d, A + B)
  {
    var m := Apply(env, req, d, A);
    var a := Apply(env, req, m, B);
    var b := Apply(env, req, d, A + B);
    forall k ensures Get(a, k) == Get(b, k) {
      ApplyGet(env, req, m, B, k);
      ApplyGet(env, req, d, A, k);
      ApplyGet(env, req, d, A + B, k);
    }
    MapsEqual(a, b);
  }

  /** Entries outside A see the same destination before and after overlaying A. */
  lemma ApplyPreserves(env: Env, req: Request, d: Tree, A: set<Path>, B: set<Path>)
    requires InSource(env, A) && InSource(env, B) && A !! B
    ensures NoneFails(env, req, Apply(env, req, d, A), B) == NoneFails(env, req, d, B)
    ensures Copies(env, req, Apply(env, req, d, A), B) == Copies(env, req, d, B)
  {
    forall q | q in B ensures Get(Apply(env, req, d, A), DestPath(req, q)) == Get(d, DestPath(req, q)) {
      ApplyOutside(env, req, d, A, q);
    }
  }

  /** Overlaying entries deeper than rel leaves the directories along DestPath(rel) alone. */
  lemma ApplyKeepsDirs(env: Env, req: Request, d: Tree, S: set<Path>, rel: Path)
    requires InSource(env, S) && forall q :: q in S ==> |q| > |rel|
    requires DirsAlong(d, DestPath(req, rel))
    ensures DirsAlong(Apply(env, req, d, S), DestPath(req, rel))
  {
    var p := DestPath(req, rel);
    forall j | 0 < j <= |p| ensures p[..j] in Apply(env, req, d, S) && Apply(env, req, d, S)[p[..j]] == Dir {
      ApplyGet(env, req, d, S, p[..j]);
    }
  }

  // ---- The subtree, child by child ----

  /** What lies under child n of rel: nothing when n is excluded, else n and, for a directory, its subtree. */
  lemma ClosureShape(env: Env, req: Request, rel: Path, n: Name)
    requires rel + [n] in env.source
    ensures Closure(env, req, rel, n) ==
      if Excluded(req.exclude, n, rel + [n]) then {}
      else {rel + [n]} + (if env.source[rel + [n]] == Dir then Subtree(env, req, rel + [n]) else {})
  {
    var c := rel + [n];
    var lhs := Closure(env, req, rel, n);
    var rhs := if Excluded(req.exclude, n, c) then {}
      else {c} + (if env.source[c] == Dir then Subtree(env, req, c) else {});
    assert c[..|c|] == c && c[|c| - 1] == n;
    forall q | q in lhs ensures q in rhs {
      assert q[..|c|] == c;
      assert q[..|c|][|c| - 1] == q[|c| - 1];
      if q != c {
        forall j | |c| < j <= |q| ensures q[..j] in env.source && !Excluded(req.exclude, q[j - 1], q[..j]) &&
            (j < |q| ==> env.source[q[..j]] == Dir) {
        }
      }
    }
    forall q | q in rhs ensures q in lhs {
      if q != c {
        assert q[..|c|] == c;
        assert q[..|rel|] == rel;
        forall j | |rel| < j <= |q| ensures q[..j] in env.source && !Excluded(req.exclude, q[j - 1], q[..j]) &&
            (j < |q| ==> env.source[q[..j]] == Dir) {
          if j == |c| {
            assert q[..j] == c;
          }
        }
      }
      assert q[|rel|] == n;
    }
  }

  /** Every entry of the subtree lies under a child of rel. */
  lemma SubtreeCovered(env: Env, req: Request, rel: Path, q: Path)
    requires q in Subtree(env, req, rel)
    ensures q[|rel|] in Children(env, rel)
  {
    assert q[..|rel| + 1] in env.source;
    assert q[..|rel| + 1] == rel + [q[|rel|]];
  }

  lemma BelowShrinks(env: Env, rel: Path, n: Name)
    requires rel + [n] in env.source
    ensures Below(env, rel + [n]) < Below(env, rel)
  {
    var c := rel + [n];
    forall k | k in Below(env, c) ensures k in Below(env, rel) {
      assert k[..|rel|] == c[..|rel|] == rel;
    }
    assert c in Below(env, rel);
    assert c !in Below(env, c);
  }

  // ---- The walk ----

  /**
   * sync(srcDir, destDir): creates the destination directory of rel with its
   * missing parents, lists rel, and runs the task of each entry. A failure
   * ends the walk; `done` is the set of entries whose effect is in place.
   */
  method SyncDir(fs: FileSystem, req: Request, env: Env, rel: Path)
    returns (res: Outcome<SyncError>, copied: set<Path>, ghost done: set<Path>)
    modifies fs
    decreases Below(env, rel), 1
    ensures !CanMkdir(old(fs.nodes), DestPath(req, rel)) ==>
      res == Fail(MkdirFailed(DestPath(req, rel))) && fs.nodes == old(fs.nodes) && copied == {} && done == {}
    ensures CanMkdir(old(fs.nodes), DestPath(req, rel)) && !SourceDir(env, rel) ==>
      res == Fail(ReadDirFailed(rel)) && fs.nodes == MkdirAll(old(fs.nodes), DestPath(req, rel)) &&
      copied == {} && done == {}
    ensures CanMkdir(old(fs.nodes), DestPath(req, rel)) && SourceDir(env, rel) ==>
      var base := MkdirAll(old(fs.nodes), DestPath(req, rel));
      var sub := Subtree(env, req, rel);
      && done <= sub
      && fs.nodes == Apply(env, req, base, done)
      && (res.Pass? <==> NoneFails(env, req, base, sub))
      && (res.Pass? ==> done == sub && copied == Copies(env, req, base, sub))
      && copied <= Copies(env, req, base, sub)
  {
    var made := fs.MkdirRecursive(DestPath(req, rel));
    if !made {
      return Fail(MkdirFailed(DestPath(req, rel))), {}, {};
    }
    if !SourceDir(env, rel) {
      return Fail(ReadDirFailed(rel)), {}, {};
    }
    var entries := Children(env, rel);
    ghost var base := fs.nodes;
    ghost var sub := Subtree(env, req, rel);
    var todo := entries;
    ghost var visited: set<Name> := {};
    copied, done := {}, {};
    while todo != {}
      invariant todo <= entries && visited == entries - todo
      invariant done == set q | q in sub && q[|rel|] in visited
      invariant fs.nodes == Apply(env, req, base, done)
      invariant NoneFails(env, req, base, done)
      invariant copied == Copies(env, req, base, done)
      invariant DirsAlong(fs.nodes, DestPath(req, rel))
      decreases todo
    {
      var n :| n in todo;
      ghost var before := fs.nodes;
      ghost var part := Closure(env, req, rel, n);
      assert done !! part;
      var r, c, dn := SyncEntry(fs, req, env, rel, n);
      ApplyTwice(env, req, base, done, dn);
      ApplyPreserves(env, req, base, done, part);
      if r.Fail? {
        return r, copied + c, done + dn;
      }
      copied, done := copied + c, done + dn;
      todo := todo - {n};
      visited := visited + {n};
      ApplyKeepsDirs(env, req, base, done, rel);
    }
    forall q | q in sub ensures q in done {
      SubtreeCovered(env, req, rel, q);
    }
    res := Pass;
  }

  /**
   * The symlink branch: read the link, remove what is at the destination and
   * create a link with the same literal target; failures of both steps are
   * ignored.
   */
  method ReplaceLink(fs: FileSystem, req: Request, env: Env, q: Path)
    requires q in env.source && env.source[q].Symlink?
    modifies fs
    ensures fs.nodes == old(fs.nodes)[DestPath(req, q) := Effect(env, q, Get(old(fs.nodes), DestPath(req, q)))]
  {
    var dest := DestPath(req, q);
    var target := env.source[q].target;
    var _ := fs.Remove(dest);
    var _ := fs.Symlink(target, dest);
  }

  /**
   * The regular-file branch: skip when the destination is current, else copy
   * through the retry loop with the default attempt count.
   */
  method SyncFile(fs: FileSystem, req: Request, env: Env, q: Path)
    returns (res: Outcome<SyncError>, copied: set<Path>)
    requires q in env.source && env.source[q].File?
    modifies fs
    ensures var cur := Get(old(fs.nodes), DestPath(req, q));
      && (res.Pass? <==> !Fails(env, q, cur))
      && (res.Pass? ==> fs.nodes == old(fs.nodes)[DestPath(req, q) := Effect(env, q, cur)])
      && (res.Fail? ==> fs.nodes == old(fs.nodes))
      && copied == if ToCopy(env, q, cur) then {q} else {}
  {
    var dest := DestPath(req, q);
    var node := env.source[q];
    var destSig := fs.Stat(dest);
    if Skip(Signature(node.mtime, node.size), destSig) {
      assert fs.nodes == fs.nodes[dest := fs.nodes[dest]];
      return Pass, {};
    }
    var t := CopyWithRetry(fs, node, dest, env.now, Attempts(env, q), DefaultMaxRetries);
    AttemptsBounded(Attempts(env, q), DefaultMaxRetries);
    if t.status.Failed? {
      return Fail(CopyFailed(q, t.status.error)), {q};
    }
    return Pass, {q};
  }

  /**
   * The task for entry n of directory rel: the exclusion test, then the
   * symlink, directory or regular-file branch. The destination directory of
   * rel, with all its parents, already exists.
   */
  method SyncEntry(fs: FileSystem, req: Request, env: Env, rel: Path, n: Name)
    returns (res: Outcome<SyncError>, copied: set<Path>, ghost done: set<Path>)
    requires rel + [n] in env.source
    requires DirsAlong(fs.nodes, DestPath(req, rel))
    modifies fs
    decreases Below(env, rel), 0
    ensures var part := Closure(env, req, rel, n);
      && done <= part
      && fs.nodes == Apply(env, req, old(fs.nodes), done)
      && (res.Pass? <==> NoneFails(env, req, old(fs.nodes), part))
      && (res.Pass? ==> done == part && copied == Copies(env, req, old(fs.nodes), part))
      && copied <= Copies(env, req, old(fs.nodes), part)
  {
    var q := rel + [n];
    ghost var d0 := fs.nodes;
    ClosureShape(env, req, rel, n);
    ApplyEmpty(env, req, d0);
    if Excluded(req.exclude, n, q) {
      return Pass, {}, {};
    }
    var dest := DestPath(req, q);
    ApplyStep(env, req, d0, {}, q);
    assert {} + {q} == {q};
    var node := env.source[q];
    if node.Symlink? {
      ReplaceLink(fs, req, env, q);
      res, copied, done := Pass, {}, {q};
    } else if node == Dir {
      assert dest == DestPath(req, rel) + [n];
      MkdirChild(d0, DestPath(req, rel), n);
      BelowShrinks(env, rel, n);
      var r, c, dn := SyncDir(fs, req, env, q);
      if CanMkdir(d0, dest) {
        ApplyTwice(env, req, d0, {q}, dn);
        ApplyPreserves(env, req, d0, {q}, Subtree(env, req, q));
      }
      res, copied, done := r, c, if CanMkdir(d0, dest) then {q} + dn else {};
    } else {
      res, copied := SyncFile(fs, req, env, q);
      done := if res.Pass? then {q} else {};
    }
  }

  /** The run succeeds: the destination root can be made, the source root listed, and no visited entry fails. */
  ghost predicate Succeeds(env: Env, req: Request, d: Tree) {
    && CanMkdir(d, req.destRoot)
    && SourceDir(env, [])
    && NoneFails(env, req, MkdirAll(d, req.destRoot), Subtree(env, req, []))
  }

  /** The destination after a successful run over d. */
  ghost function Synced(env: Env, req: Request, d: Tree): Tree
    requires CanMkdir(d, req.destRoot)
  {
    Apply(env, req, MkdirAll(d, req.destRoot), Subtree(env, req, []))
  }

  /** The source entries a successful run over d copies. */
  ghost function CopiedBy(env: Env, req: Request, d: Tree): set<Path>
    requires CanMkdir(d, req.destRoot)
  {
    Copies(env, req, MkdirAll(d, req.destRoot), Subtree(env, req, []))
  }

  /**
   * syncDirectory(src, dest, options): succeeds exactly when no step fails,
   * and then leaves the destination synced and reports the entries it copied.
   * After a failure each destination path either is as before or already
   * holds its synced content.
   */
  method SyncDirectory(fs: FileSystem, req: Request, env: Env)
    returns (res: Outcome<SyncError>, copied: set<Path>, ghost done: set<Path>)
    modifies fs
    ensures res.Pass? <==> Succeeds(env, req, old(fs.nodes))
    ensures res.Pass? ==> fs.nodes == Synced(env, req, old(fs.nodes)) && copied == CopiedBy(env, req, old(fs.nodes))
    ensures res.Fail? ==>
      fs.nodes == old(fs.nodes) ||
      (CanMkdir(old(fs.nodes), req.destRoot) && done <= Subtree(env, req, []) &&
       fs.nodes == Apply(env, req, MkdirAll(old(fs.nodes), req.destRoot), done))
  {
    ghost var d0 := fs.nodes;
    assert DestPath(req, []) == req.destRoot;
    res, copied, done := SyncDir(fs, req, env, []);
    if CanMkdir(d0, req.destRoot) {
      ApplyEmpty(env, req, MkdirAll(d0, req.destRoot));
      if SourceDir(env, []) {
        var base := MkdirAll(d0, req.destRoot);
        assert fs.nodes == Apply(env, req, base, done);
        assert res.Pass? <==> NoneFails(env, req, base, Subtree(env, req, []));
        if res.Pass? {
          assert done == Subtree(env, req, []);
        }
      }
    }
  }
}
