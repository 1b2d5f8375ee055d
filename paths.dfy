/**
 * Paths as sequences of segments. `os.path.join(base, s1, ..., sn)` appends the
 * segments one at a time, left to right; that fold is modelled here over segments
 * that are never empty, never absolute and never contain a separator.
 */
module Paths {

  /**
   * One path component: non-empty and free of the separator. On such segments
   * `os.path.join` only ever appends, since none is empty or absolute.
   */
  type Segment = s: string | s != "" && forall i :: 0 <= i < |s| ==> s[i] != '/' witness "a"

  type Path = seq<Segment>

  /** `os.path.join(base, *segs)`: the result is `base` followed by `segs`, in order. */
  function Join(base: Path, segs: Path): (p: Path)
    ensures |p| == |base| + |segs|
    ensures p[..|base|] == base && p[|base|..] == segs
    decreases |segs|
  {
    if segs == [] then base else Join(base + [segs[0]], segs[1..])
  }

  /** Joining in two steps is joining once with the concatenated segments. */
  lemma JoinAssociative(base: Path, a: Path, b: Path)
    ensures Join(Join(base, a), b) == Join(base, a + b)
  {
  }
}
