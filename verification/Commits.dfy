/**
 Git history. A commit names its parents by a hash of their content, so its identity is its
 whole past: a value of an inductive type, which makes every history acyclic.
 */
module Commits {

  datatype Commit = Commit(content: string, parents: seq<Commit>)

  /** git merge-base --is-ancestor: a is d or reachable from d through parents. */
  predicate Ancestor(a: Commit, d: Commit) {
    a == d || exists i | 0 <= i < |d.parents| :: Ancestor(a, d.parents[i])
  }

  /** A walk from d to a, from each commit to one of its parents. */
  ghost predicate IsWalk(walk: seq<Commit>, a: Commit, d: Commit) {
    && walk != [] && walk[0] == d && walk[|walk| - 1] == a
    && forall k | 0 <= k < |walk| - 1 :: walk[k + 1] in walk[k].parents
  }

  /** Reachability through parents, whichever parent and however far. */
  lemma {:induction false} AncestorIsReachable(a: Commit, d: Commit)
    ensures Ancestor(a, d) <==> exists walk: seq<Commit> :: IsWalk(walk, a, d)
    decreases d
  {
    if a == d {
      assert IsWalk([d], a, d);
    } else if Ancestor(a, d) {
      var i :| 0 <= i < |d.parents| && Ancestor(a, d.parents[i]);
      AncestorIsReachable(a, d.parents[i]);
      var walk: seq<Commit> :| IsWalk(walk, a, d.parents[i]);
      assert IsWalk([d] + walk, a, d);
    } else if walk: seq<Commit> :| IsWalk(walk, a, d) {
      assert walk[0 + 1] in walk[0].parents;
      var i :| 0 <= i < |d.parents| && d.parents[i] == walk[1];
      assert IsWalk(walk[1..], a, d.parents[i]);
      AncestorIsReachable(a, d.parents[i]);
      assert false;
    }
  }

  lemma {:induction false} AncestorTransitive(a: Commit, b: Commit, c: Commit)
    requires Ancestor(a, b) && Ancestor(b, c)
    ensures Ancestor(a, c)
    decreases c
  {
    if b != c {
      var i :| 0 <= i < |c.parents| && Ancestor(b, c.parents[i]);
      AncestorTransitive(a, b, c.parents[i]);
    }
  }

  lemma {:induction false} ParentIsNoDescendant(c: Commit, i: nat)
    requires i < |c.parents|
    ensures !Ancestor(c, c.parents[i])
    decreases c.parents[i]
  {
    var p := c.parents[i];
    assert Ancestor(p, c.parents[i]) && Ancestor(p, c);
    if Ancestor(c, p) && c != p {
      var j :| 0 <= j < |p.parents| && Ancestor(c, p.parents[j]);
      AncestorTransitive(p, c, p.parents[j]);
      ParentIsNoDescendant(p, j);
    }
  }

  /** Acyclicity: two commits that can reach each other are the same commit. */
  lemma AncestorAntisymmetric(a: Commit, b: Commit)
    requires Ancestor(a, b) && Ancestor(b, a)
    ensures a == b
  {
    if a != b {
      var i :| 0 <= i < |b.parents| && Ancestor(a, b.parents[i]);
      AncestorTransitive(b, a, b.parents[i]);
      ParentIsNoDescendant(b, i);
    }
  }

  /** git rev-list: a commit with everything reachable from it. */
  function Ancestors(d: Commit): set<Commit> {
    {d} + set i, a | 0 <= i < |d.parents| && a in Ancestors(d.parents[i]) :: a
  }

  lemma {:induction false} AncestorsAre(a: Commit, d: Commit)
    ensures a in Ancestors(d) <==> Ancestor(a, d)
    decreases d
  {
    forall i | 0 <= i < |d.parents| ensures a in Ancestors(d.parents[i]) <==> Ancestor(a, d.parents[i]) {
      AncestorsAre(a, d.parents[i]);
    }
  }

  /** git rev-list --count from..to. */
  function CommitsAhead(from: Commit, to: Commit): nat {
    |Ancestors(to) - Ancestors(from)|
  }

  /** A proper descendant is ahead by at least one commit, and an ancestor by none. */
  lemma AheadCount(a: Commit, d: Commit)
    requires Ancestor(a, d)
    ensures CommitsAhead(a, d) >= 1 <==> a != d
    ensures CommitsAhead(d, a) == 0
  {
    if a != d {
      AncestorsAre(d, d);
      AncestorsAre(d, a);
      if Ancestor(d, a) {
        AncestorAntisymmetric(a, d);
      }
      assert d in Ancestors(d) - Ancestors(a);
    }
    forall c | c in Ancestors(a) ensures c in Ancestors(d) {
      AncestorsAre(c, a);
      AncestorTransitive(c, a, d);
      AncestorsAre(c, d);
    }
    assert Ancestors(a) - Ancestors(d) == {};
  }
}
