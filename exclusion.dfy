/**
 * The exclusion test of the synchroniser: an entry is skipped, with its whole
 * subtree, when its bare name or its path relative to the source root
 * contains any of the exclude substrings.
 */
module Exclusion {
  import opened Fs

  /** String.prototype.includes: pat occurs in s. */
  function Contains(s: string, pat: string): bool
    decreases |s|
  {
    if |pat| > |s| then false
    else if s[..|pat|] == pat then true
    else Contains(s[1..], pat)
  }

  /** A slice of s that equals pat is found by Contains. */
  lemma {:induction false} ContainsAt(s: string, pat: string, i: nat, j: nat)
    requires i <= j <= |s| && s[i..j] == pat
    ensures Contains(s, pat)
    decreases i
  {
    if s[..|pat|] != pat {
      assert i > 0;
      assert s[1..][i - 1..j - 1] == s[i..j];
      ContainsAt(s[1..], pat, i - 1, j - 1);
    }
  }

  /** When Contains holds, pat is a slice of s. */
  lemma {:induction false} ContainsWitness(s: string, pat: string) returns (i: nat, j: nat)
    requires Contains(s, pat)
    ensures i <= j <= |s| && s[i..j] == pat
    decreases |s|
  {
    if s[..|pat|] == pat {
      i, j := 0, |pat|;
    } else {
      var i', j' := ContainsWitness(s[1..], pat);
      assert s[1..][i'..j'] == s[i' + 1..j' + 1];
      i, j := i' + 1, j' + 1;
    }
  }

  /** Contains agrees with "pat is a slice of s". */
  lemma ContainsIff(s: string, pat: string)
    ensures Contains(s, pat) <==> exists i, j :: 0 <= i <= j <= |s| && s[i..j] == pat
  {
    if Contains(s, pat) {
      var i, j := ContainsWitness(s, pat);
    }
    if exists i, j :: 0 <= i <= j <= |s| && s[i..j] == pat {
      var i, j :| 0 <= i <= j <= |s| && s[i..j] == pat;
      ContainsAt(s, pat, i, j);
    }
  }

  /** A slice of a slice of s is a slice of s. */
  lemma ContainsInSlice(s: string, a: nat, b: nat, pat: string)
    requires a <= b <= |s| && Contains(s[a..b], pat)
    ensures Contains(s, pat)
  {
    ContainsIff(s[a..b], pat);
    var i, j :| 0 <= i <= j <= b - a && s[a..b][i..j] == pat;
    forall x | 0 <= x < j - i ensures s[a..b][i..j][x] == s[a + i..a + j][x] {
      assert s[a..b][i..j][x] == s[a..b][i + x] == s[a + i + x];
    }
    assert s[a..b][i..j] == s[a + i..a + j];
    ContainsIff(s, pat);
  }

  /** path.relative(root, root/rel): the names of rel joined with '/'. */
  function RelativePath(rel: Path): string
    decreases |rel|
  {
    if |rel| == 0 then ""
    else if |rel| == 1 then rel[0]
    else RelativePath(rel[..|rel| - 1]) + "/" + rel[|rel| - 1]
  }

  /** `exclude.some((p) => entry.name.includes(p) || relativePath.includes(p))` */
  predicate Excluded(exclude: seq<string>, name: Name, rel: Path) {
    exists k :: 0 <= k < |exclude| && (Contains(name, exclude[k]) || Contains(RelativePath(rel), exclude[k]))
  }

  /** The relative path alone contains one of the substrings. */
  predicate PathExcluded(exclude: seq<string>, rel: Path) {
    exists k :: 0 <= k < |exclude| && Contains(RelativePath(rel), exclude[k])
  }

  /** An entry's name is the last part of its relative path, so a match in the name is a match in the path. */
  lemma {:induction false} NameInRelativePath(rel: Path, pat: string)
    requires |rel| > 0 && Contains(rel[|rel| - 1], pat)
    ensures Contains(RelativePath(rel), pat)
  {
    var s := RelativePath(rel);
    var name := rel[|rel| - 1];
    if |rel| > 1 {
      assert s[|s| - |name|..|s|] == name;
      ContainsInSlice(s, |s| - |name|, |s|, pat);
    }
  }

  /**
   * The name test adds nothing: an entry is excluded exactly when its
   * relative path contains one of the substrings.
   */
  lemma NameTestSubsumed(exclude: seq<string>, rel: Path)
    requires |rel| > 0
    ensures Excluded(exclude, rel[|rel| - 1], rel) <==> PathExcluded(exclude, rel)
  {
    forall k | 0 <= k < |exclude| && Contains(rel[|rel| - 1], exclude[k])
      ensures Contains(RelativePath(rel), exclude[k])
    {
      NameInRelativePath(rel, exclude[k]);
    }
  }

  /**
   * A match in a directory's relative path is a match in the relative path of
   * each of its children, so exclusion is inherited by the whole subtree.
   */
  lemma ExclusionInherited(exclude: seq<string>, rel: Path, n: Name)
    requires |rel| > 0 && Excluded(exclude, rel[|rel| - 1], rel)
    ensures Excluded(exclude, n, rel + [n])
  {
    var k :| 0 <= k < |exclude| && (Contains(rel[|rel| - 1], exclude[k]) || Contains(RelativePath(rel), exclude[k]));
    if Contains(rel[|rel| - 1], exclude[k]) {
      NameInRelativePath(rel, exclude[k]);
    }
    var c := rel + [n];
    assert c[..|c| - 1] == rel;
    var s := RelativePath(rel);
    assert RelativePath(c) == s + "/" + n;
    assert RelativePath(c)[..|s|] == s;
    ContainsInSlice(RelativePath(c), 0, |s|, exclude[k]);
  }
}
