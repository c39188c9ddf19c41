/**
 * A worked run: source {a.txt (100 bytes, mtime 100), sub/b.txt (50 bytes,
 * mtime 200), link -> a.txt}, an empty destination dst, no exclusions and
 * copies that succeed at once.
 */
module SyncScenario {
  import opened Wrappers
  import opened Fs
  import opened Sync
  import opened SyncProperties

  const Req: Request := Request(["dst"], [], 2)

  function Source(a: seq<byte>, b: seq<byte>): Tree {
    map[
      [] := Dir,
      ["a.txt"] := File(100, |a|, a),
      ["sub"] := Dir,
      ["sub", "b.txt"] := File(200, |b|, b),
      ["link"] := Node.Symlink("a.txt")]
  }

  function World(a: seq<byte>, b: seq<byte>, now: int): Env {
    Env(Source(a, b), now, (q: Path, i: nat) => Ok)
  }

  function Expected(a: seq<byte>, b: seq<byte>, now: int): Tree {
    map[
      ["dst"] := Dir,
      ["dst", "a.txt"] := File(now, |a|, a),
      ["dst", "sub"] := Dir,
      ["dst", "sub", "b.txt"] := File(now, |b|, b),
      ["dst", "link"] := Node.Symlink("a.txt")]
  }

  /** The walk visits the four entries below the root. */
  lemma ScenarioVisits(a: seq<byte>, b: seq<byte>, now: int)
    ensures Subtree(World(a, b, now), Req, []) == {["a.txt"], ["sub"], ["sub", "b.txt"], ["link"]}
  {
    assert ["a.txt"][..1] == ["a.txt"];
    assert ["sub"][..1] == ["sub"];
    assert ["link"][..1] == ["link"];
    assert ["sub", "b.txt"][..1] == ["sub"];
    assert ["sub", "b.txt"][..2] == ["sub", "b.txt"];
  }

  /** Creating dst in the empty destination. */
  lemma ScenarioRoot()
    ensures CanMkdir(map[], Req.destRoot) && MkdirAll(map[], Req.destRoot) == map[["dst"] := Dir]
  {
    assert ["dst"][..1] == ["dst"];
    assert Prefixes(["dst"]) == {["dst"]};
  }

  /** At the destination path of each visited entry. */
  lemma ScenarioAt(a: seq<byte>, b: seq<byte>, now: int, q: Path)
    requires q in {["a.txt"], ["sub"], ["sub", "b.txt"], ["link"]}
    ensures Get(Synced(World(a, b, now), Req, map[]), DestPath(Req, q)) == Get(Expected(a, b, now), DestPath(Req, q))
  {
    ScenarioVisits(a, b, now);
    ScenarioRoot();
    SyncedAt(World(a, b, now), Req, map[], q);
    assert Get(map[], DestPath(Req, q)) == None;
    if q == ["a.txt"] {
      assert DestPath(Req, q) == ["dst", "a.txt"];
    } else if q == ["sub"] {
      assert DestPath(Req, q) == ["dst", "sub"];
    } else if q == ["sub", "b.txt"] {
      assert DestPath(Req, q) == ["dst", "sub", "b.txt"];
    } else {
      assert DestPath(Req, q) == ["dst", "link"];
    }
  }

  /** Everywhere else: dst itself, and nothing. */
  lemma ScenarioElsewhere(a: seq<byte>, b: seq<byte>, now: int, k: Path)
    requires forall q :: q in {["a.txt"], ["sub"], ["sub", "b.txt"], ["link"]} ==> k != DestPath(Req, q)
    ensures Get(Synced(World(a, b, now), Req, map[]), k) == Get(Expected(a, b, now), k)
  {
    var env := World(a, b, now);
    ScenarioVisits(a, b, now);
    ScenarioRoot();
    ApplyGet(env, Req, MkdirAll(map[], Req.destRoot), Subtree(env, Req, []), k);
    if Req.destRoot <= k {
      assert k == DestPath(Req, k[1..]);
    }
  }

  /** The destination the run leaves is exactly the expected mirror. */
  lemma ScenarioSynced(a: seq<byte>, b: seq<byte>, now: int)
    ensures Synced(World(a, b, now), Req, map[]) == Expected(a, b, now)
  {
    var s := Synced(World(a, b, now), Req, map[]);
    var e := Expected(a, b, now);
    var visited := {["a.txt"], ["sub"], ["sub", "b.txt"], ["link"]};
    forall k ensures Get(s, k) == Get(e, k) {
      if q :| q in visited && k == DestPath(Req, q) {
        ScenarioAt(a, b, now, q);
      } else {
        ScenarioElsewhere(a, b, now, k);
      }
    }
    MapsEqual(s, e);
  }

  /**
   * The run succeeds, copies both files, mirrors the tree into dst, and a
   * second run copies nothing.
   */
  lemma EndToEnd(a: seq<byte>, b: seq<byte>, now: int)
    requires now >= 200
    ensures Succeeds(World(a, b, now), Req, map[])
    ensures Synced(World(a, b, now), Req, map[]) == Expected(a, b, now)
    ensures CopiedBy(World(a, b, now), Req, map[]) == {["a.txt"], ["sub", "b.txt"]}
    ensures CopiedBy(World(a, b, now), Req, Expected(a, b, now)) == {}
  {
    var env := World(a, b, now);
    ScenarioVisits(a, b, now);
    ScenarioRoot();
    ScenarioSynced(a, b, now);
    SecondRunIsNoOp(env, env, Req, map[]);
  }
}
