/** Flat trees and what the commands mean on them. */
module Trees {
  import opened Basics
  import opened Paths
  import opened Tables

  /** A well-formed tree: a root directory, and every other node below a directory. */
  ghost predicate IsTree(t: Tree) {
    && [] in t && t[[]].kind == Dir
    && forall p :: p in t && p != [] ==> DropLast(p) in t && t[DropLast(p)].kind == Dir
  }

  ghost predicate IdsDistinct(t: Tree) {
    forall p, q :: p in t && q in t && t[p].id == t[q].id ==> p == q
  }

  /** The paths at or below `p`. */
  function Subtree(t: Tree, p: Path): set<Path> { set q | q in t && p <= q }

  /** Everything at or below `p` deleted. */
  function Pruned(t: Tree, p: Path): Tree { map q | q in t && !(p <= q) :: t[q] }

  /** The subtree at `p`, addressed relative to `p`. */
  function Extract(t: Tree, p: Path): Tree {
    map r | r in (set q | q in t && p <= q :: q[|p|..]) && p + r in t :: t[p + r]
  }

  lemma ExtractAt(t: Tree, p: Path, r: Path)
    ensures r in Extract(t, p) <==> p + r in t
    ensures r in Extract(t, p) ==> Extract(t, p)[r] == t[p + r]
  {
    if p + r in t { assert (p + r)[|p|..] == r; }
  }

  /** `sub` planted at `p`. */
  function Planted(p: Path, sub: Tree): Tree {
    map q | q in (set r | r in sub :: p + r) && q[|p|..] in sub :: sub[q[|p|..]]
  }

  lemma PlantedAt(p: Path, sub: Tree, q: Path)
    ensures q in Planted(p, sub) <==> p <= q && q[|p|..] in sub
    ensures q in Planted(p, sub) ==> Planted(p, sub)[q] == sub[q[|p|..]]
  {
    if p <= q { assert p + q[|p|..] == q; }
    forall r | r in sub ensures (p + r)[|p|..] == r {}
  }

  /** A tree with `sub` added at `p`. */
  function Grafted(t: Tree, p: Path, sub: Tree): Tree { t + Planted(p, sub) }

  /** The subtree at `s` re-rooted at `d`, replacing what was at `d`. */
  function Moved(t: Tree, s: Path, d: Path): Tree {
    Grafted(Pruned(Pruned(t, d), s), d, Extract(Pruned(t, d), s))
  }

  /** Nothing exists at or below `p`. */
  ghost predicate Vacant(t: Tree, p: Path) { forall q :: q in t ==> !(p <= q) }

  lemma {:induction false} AncestorsExist(t: Tree, p: Path, q: Path)
    requires IsTree(t) && q in t && p <= q
    ensures p in t && (p != q ==> t[p].kind == Dir)
    decreases |q|
  {
    if p == q {
    } else {
      assert p <= DropLast(q) by { assert p == DropLast(q)[..|p|]; }
      AncestorsExist(t, p, DropLast(q));
    }
  }

  /** Where nothing exists, nothing exists below; below a non-directory there is nothing. */
  lemma MissingMeansVacant(t: Tree, p: Path)
    requires IsTree(t)
    ensures p !in t ==> Vacant(t, p)
    ensures p in t && t[p].kind != Dir ==> Subtree(t, p) == {p}
  {
    forall q | q in t && p <= q ensures p in t && (p != q ==> t[p].kind == Dir) {
      AncestorsExist(t, p, q);
    }
  }
}
