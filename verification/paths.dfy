/**
  Index paths into a rose tree. A path names a node by the child indices
  taken from the root; `[]` is the root itself. Both tree searches of the
  model return paths instead of pointers.
 */
module Paths {

  type Path = seq<nat>

  /** `p` names `q` or one of its ancestors. */
  predicate IsPrefix(p: Path, q: Path) {
    |p| <= |q| && q[..|p|] == p
  }

  /**
    `p` is visited strictly before `q` by a pre-order walk that visits a node,
    then its children in index order: an ancestor precedes its descendants,
    and a subtree with a smaller index at the first point of divergence
    precedes one with a larger index.
   */
  predicate Before(p: Path, q: Path)
    decreases p
  {
    |q| > 0 && (|p| == 0 || p[0] < q[0] || (p[0] == q[0] && Before(p[1..], q[1..])))
  }

  /** `Before` is a strict total order on paths. */
  lemma {:induction false} BeforeIsStrictTotal(p: Path, q: Path)
    ensures !Before(p, p)
    ensures Before(p, q) ==> !Before(q, p)
    ensures p != q ==> Before(p, q) || Before(q, p)
    decreases p
  {
    if |p| > 0 {
      BeforeIsStrictTotal(p[1..], p[1..]);
    }
    if |p| > 0 && |q| > 0 {
      BeforeIsStrictTotal(p[1..], q[1..]);
      if p[0] == q[0] && p != q {
        assert p == [p[0]] + p[1..] && q == [q[0]] + q[1..];
      }
    }
  }

  /** Prefix tests on paths that agree on their first index reduce to their tails. */
  lemma PrefixStep(p: Path, q: Path)
    requires |p| > 0 && |q| > 0 && p[0] == q[0]
    ensures IsPrefix(p, q) <==> IsPrefix(p[1..], q[1..])
  {
    if |p| <= |q| {
      assert q[..|p|] == [q[0]] + q[1..][..|p| - 1];
      assert p == [p[0]] + p[1..];
    }
  }
}
