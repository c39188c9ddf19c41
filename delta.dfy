/**
 * The change detector: a regular file is copied unless the destination's
 * signature shows it is current.
 */
module Delta {
  import opened Wrappers
  import opened Fs

  /** Skip when a destination signature exists that is no older and has the same size. */
  predicate Skip(src: Signature, dest: Option<Signature>) {
    dest.Some? && src.mtime <= dest.value.mtime && src.size == dest.value.size
  }

  /** A fresh copy stamped `now` is current exactly when the source is not newer than `now`. */
  lemma CopyIsCurrent(f: Node, now: int)
    requires f.File?
    ensures Skip(Signature(f.mtime, f.size), StatOf(Some(CopyOf(f, now)))) <==> f.mtime <= now
  {
  }
}
