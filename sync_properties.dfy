/**
 * What one successful run of syncDirectory leaves in the destination, entry
 * by entry, and what a second run over an unchanged source does.
 */
module SyncProperties {
  import opened Wrappers
  import opened Fs
  import opened Retry
  import opened Exclusion
  import opened Delta
  import opened Sync

  /** A recursive mkdir of p touches only prefixes of p. */
  lemma MkdirAllOutside(d: Tree, p: Path, k: Path)
    requires CanMkdir(d, p) && !(k <= p)
    ensures Get(MkdirAll(d, p), k) == Get(d, k)
  {
  }

  /** The destination after a run at the destination path of a visited entry q. */
  lemma SyncedAt(env: Env, req: Request, d: Tree, q: Path)
    requires CanMkdir(d, req.destRoot) && q in Subtree(env, req, [])
    ensures Get(Synced(env, req, d), DestPath(req, q)) ==
      Some(Effect(env, q, Get(d, DestPath(req, q))))
  {
    var b := MkdirAll(d, req.destRoot);
    ApplyAt(env, req, b, Subtree(env, req, []), q);
    MkdirAllOutside(d, req.destRoot, DestPath(req, q));
  }

  /**
   * An excluded entry, or one inside an excluded directory, is never visited:
   * the exclusion test returns before any recursion.
   */
  lemma ExcludedNotVisited(env: Env, req: Request, e: Path)
    requires |e| > 0 && Excluded(req.exclude, e[|e| - 1], e)
    ensures forall q :: q in Subtree(env, req, []) ==> !(e <= q)
  {
    forall q | q in Subtree(env, req, []) ensures !(e <= q) {
      if |e| <= |q| {
        var c := q[..|e|];
        assert c[|c| - 1] == q[|e| - 1];
        assert !Excluded(req.exclude, c[|c| - 1], c);
        assert c != e;
      }
    }
  }

  /**
   * A run changes nothing at or below the destination path of an excluded
   * entry. This holds of every state a run can end in: a run that fails at
   * the first mkdir leaves d itself, and any other run leaves the root's
   * directories and the effects of some set done of visited entries (all of
   * them when the run succeeds, so Synced is the case done == Subtree).
   */
  lemma ExcludedUntouched(env: Env, req: Request, d: Tree, done: set<Path>, e: Path, k: Path)
    requires CanMkdir(d, req.destRoot) && done <= Subtree(env, req, [])
    requires |e| > 0 && Excluded(req.exclude, e[|e| - 1], e)
    requires DestPath(req, e) <= k
    ensures Get(Apply(env, req, MkdirAll(d, req.destRoot), done), k) == Get(d, k)
  {
    var b := MkdirAll(d, req.destRoot);
    ExcludedNotVisited(env, req, e);
    assert k[..|req.destRoot|] == req.destRoot;
    assert e <= k[|req.destRoot|..] by {
      assert k[|req.destRoot|..][..|e|] == e;
    }
    ApplyGet(env, req, b, done, k);
    MkdirAllOutside(d, req.destRoot, k);
  }

  /**
   * A run changes nothing outside the destination root, nor at a path below it
   * that the source does not have: entries are mirrored one to one and nothing
   * is pruned. As for ExcludedUntouched, this holds of the state a failed run
   * leaves as well as of Synced.
   */
  lemma UnlistedUntouched(env: Env, req: Request, d: Tree, done: set<Path>, k: Path)
    requires CanMkdir(d, req.destRoot) && done <= Subtree(env, req, [])
    requires !(k <= req.destRoot)
    requires req.destRoot <= k ==> k[|req.destRoot|..] !in env.source
    ensures Get(Apply(env, req, MkdirAll(d, req.destRoot), done), k) == Get(d, k)
  {
    ApplyGet(env, req, MkdirAll(d, req.destRoot), done, k);
    MkdirAllOutside(d, req.destRoot, k);
  }

  /** The destination root and every visited source directory are directories afterwards. */
  lemma DirsMirrored(env: Env, req: Request, d: Tree, q: Path)
    requires CanMkdir(d, req.destRoot) && q in Subtree(env, req, []) && env.source[q] == Dir
    ensures DirsAlong(Synced(env, req, d), req.destRoot)
    ensures DestPath(req, q) in Synced(env, req, d) && Synced(env, req, d)[DestPath(req, q)] == Dir
  {
    SyncedAt(env, req, d, q);
    assert DestPath(req, []) == req.destRoot;
    ApplyKeepsDirs(env, req, MkdirAll(d, req.destRoot), Subtree(env, req, []), []);
  }

  /**
   * A visited symlink with target t leaves a symlink with the literal target t
   * at its destination path, except where a directory stood, which rm refuses
   * to remove, so that directory stays and the run goes on.
   */
  lemma SymlinkMirrored(env: Env, req: Request, d: Tree, q: Path)
    requires CanMkdir(d, req.destRoot) && q in Subtree(env, req, []) && env.source[q].Symlink?
    ensures Get(Synced(env, req, d), DestPath(req, q)) ==
      if Get(d, DestPath(req, q)) == Some(Dir) then Some(Dir) else Some(Node.Symlink(env.source[q].target))
    ensures !Fails(env, q, Get(MkdirAll(d, req.destRoot), DestPath(req, q)))
  {
    SyncedAt(env, req, d, q);
  }

  /**
   * A visited regular file is copied exactly when the destination has no file
   * signature, the source is strictly newer or the sizes differ; a copy holds
   * the source's bytes stamped with the clock, a skipped file stays as it was.
   */
  lemma FileMirrored(env: Env, req: Request, d: Tree, q: Path)
    requires CanMkdir(d, req.destRoot) && q in Subtree(env, req, []) && env.source[q].File?
    ensures var f := env.source[q];
      var cur := Get(d, DestPath(req, q));
      && (q in CopiedBy(env, req, d) <==>
            (StatOf(cur).None? || f.mtime > StatOf(cur).value.mtime || f.size != StatOf(cur).value.size))
      && Get(Synced(env, req, d), DestPath(req, q)) ==
           if q in CopiedBy(env, req, d) then Some(File(env.now, f.size, f.content)) else cur
  {
    SyncedAt(env, req, d, q);
    MkdirAllOutside(d, req.destRoot, DestPath(req, q));
  }

  /**
   * After a run, a visited entry needs no copy and cannot fail, and its effect
   * is already in place, provided a copy gets an mtime no older than its
   * source's.
   */
  lemma EffectSettled(env: Env, env2: Env, q: Path, cur: Option<Node>)
    requires env2.source == env.source && q in env.source
    requires env.source[q].File? ==> env.source[q].mtime <= env.now
    ensures var e := Effect(env, q, cur);
      && !ToCopy(env2, q, Some(e))
      && !Fails(env2, q, Some(e))
      && Effect(env2, q, Some(e)) == e
  {
    var n := env.source[q];
    if n.File? && ToCopy(env, q, cur) {
      CopyIsCurrent(n, env.now);
    }
  }

  /**
   * Idempotence: when copies are stamped no earlier than their sources'
   * mtimes, a second run over the unchanged source succeeds, copies nothing
   * and leaves the destination as the first run left it, whatever the copy
   * attempts of the second run would report.
   */
  lemma SecondRunIsNoOp(env: Env, env2: Env, req: Request, d: Tree)
    requires Succeeds(env, req, d) && env2.source == env.source
    requires forall q :: q in env.source && env.source[q].File? ==> env.source[q].mtime <= env.now
    ensures Succeeds(env2, req, Synced(env, req, d))
    ensures CopiedBy(env2, req, Synced(env, req, d)) == {}
    ensures Synced(env2, req, Synced(env, req, d)) == Synced(env, req, d)
  {
    var b := MkdirAll(d, req.destRoot);
    var T := Subtree(env, req, []);
    var d1 := Synced(env, req, d);
    assert Subtree(env2, req, []) == T;
    assert DestPath(req, []) == req.destRoot;
    ApplyKeepsDirs(env, req, b, T, []);
    MkdirExisting(d1, req.destRoot);
    forall q | q in T
      ensures Get(d1, DestPath(req, q)) == Some(Effect(env, q, Get(b, DestPath(req, q))))
      ensures !ToCopy(env2, q, Get(d1, DestPath(req, q)))
      ensures !Fails(env2, q, Get(d1, DestPath(req, q)))
    {
      ApplyAt(env, req, b, T, q);
      EffectSettled(env, env2, q, Get(b, DestPath(req, q)));
    }
    assert CopiedBy(env2, req, d1) == {};
    var d2 := Synced(env2, req, d1);
    forall k ensures Get(d2, k) == Get(d1, k) {
      ApplyGet(env2, req, d1, T, k);
      if Owned(req, T, k) {
        var q := k[|req.destRoot|..];
        assert k == DestPath(req, q);
        ApplyAt(env, req, b, T, q);
        EffectSettled(env, env2, q, Get(b, k));
      }
    }
    MapsEqual(d2, d1);
  }
}
