/** What the exit codes of the parity guard mean, and how its three modes relate. */
module ParityTheorems {
  import opened Wrappers
  import opened Commits
  import opened ParityGuard

  /** The commit a consumer builds against; None when the script calls it unresolvable. */
  function EffectiveCommit(c: Consumer): Option<Commit> {
    SiteOf("", c).effective
  }

  /** A usable repository whose submodule directory, or failing that path dependency, has a commit checked out. */
  predicate Resolvable(c: Consumer) {
    && c.obs.repoExists && c.obs.headUsable
    && if c.subRel != "-" && c.obs.subDirExists then c.obs.worktreeHead.Some? && c.obs.worktreeIsTop
       else c.obs.cargo.CargoDep? && c.obs.cargo.head.Some?
  }

  /**
   Where the effective commit comes from: the pin where one is recorded for the directory, the
   checked-out commit otherwise; and the row says so, wherever the workspace root is.
   */
  lemma EffectiveCommitIs(root: string, c: Consumer)
    ensures EffectiveCommit(c).Some? <==> Resolvable(c)
    ensures SiteOf(root, c).effective == EffectiveCommit(c)
    ensures Resolvable(c) ==>
      EffectiveCommit(c) ==
        if c.subRel == "-" || !c.obs.subDirExists then c.obs.cargo.head
        else if c.obs.entry.Gitlink? then Some(c.obs.entry.pin)
        else c.obs.worktreeHead
  {
  }

  /** An initialised submodule whose checked-out commit is not its recorded pin. */
  predicate Drifted(c: Consumer) {
    var o := c.obs;
    && o.repoExists && o.headUsable && c.subRel != "-" && o.subDirExists
    && o.worktreeHead.Some? && o.worktreeIsTop && o.entry.Gitlink? && o.worktreeHead.value != o.entry.pin
  }

  predicate Sound(c: Consumer) {
    EffectiveCommit(c).Some? && !Drifted(c)
  }

  predicate AllSound(ws: Workspace) {
    forall i | 0 <= i < 3 :: Sound(Consumers(ws)[i])
  }

  predicate AllAt(ws: Workspace, commit: Commit) {
    forall i | 0 <= i < 3 :: EffectiveCommit(Consumers(ws)[i]) == Some(commit)
  }

  predicate Reaches(canonical: Canonical, commit: Option<Commit>, sha: Commit) {
    commit.Some? ==> commit.value in canonical.objects && sha in canonical.objects && Ancestor(commit.value, sha)
  }

  predicate AllReachable(canonical: Canonical, ws: Workspace, sha: Commit) {
    forall i | 0 <= i < 3 :: Reaches(canonical, EffectiveCommit(Consumers(ws)[i]), sha)
  }

  /** Every unresolvable row comes with a violation, and resolving is silent exactly for sound consumers. */
  lemma ResolutionSilentIff(root: string, c: Consumer)
    ensures SiteOf(root, c).effective == EffectiveCommit(c)
    ensures ResolutionViolations(c) == [] <==> Sound(c)
    ensures SiteOf(root, c).effective.None? ==> |ResolutionViolations(c)| == 1
  {
  }

  lemma AllResolutionSilentIff(ws: Workspace)
    ensures AllResolutionViolations(Consumers(ws)) == [] <==> AllSound(ws)
  {
    var cs := Consumers(ws);
    ThreeSites(ws);
    ResolutionSilentIff(ws.root, cs[0]);
    ResolutionSilentIff(ws.root, cs[1]);
    ResolutionSilentIff(ws.root, cs[2]);
    assert Sound(cs[0]) && Sound(cs[1]) && Sound(cs[2]) ==> AllSound(ws);
  }

  lemma OrphanedOfThree(canonical: Canonical, a: Site, b: Site, c: Site, sha: Commit)
    ensures Orphaned(canonical, [a, b, c], sha) == [] <==>
      && Reaches(canonical, a.effective, sha)
      && Reaches(canonical, b.effective, sha)
      && Reaches(canonical, c.effective, sha)
  {
    assert [a, b, c][..2] == [a, b] && [a, b][..1] == [a] && [a][..0] == [];
    assert Orphaned(canonical, [a], sha) == [] <==> Reaches(canonical, a.effective, sha);
  }

  lemma AllReachableIff(canonical: Canonical, ws: Workspace, sha: Commit)
    ensures AllReachable(canonical, ws, sha) <==>
      && Reaches(canonical, EffectiveCommit(Consumers(ws)[0]), sha)
      && Reaches(canonical, EffectiveCommit(Consumers(ws)[1]), sha)
      && Reaches(canonical, EffectiveCommit(Consumers(ws)[2]), sha)
  {
  }

  lemma ReachableOfSites(canonical: Canonical, ws: Workspace, sha: Commit)
    ensures Orphaned(canonical, AllSites(ws.root, Consumers(ws)), sha) == [] <==> AllReachable(canonical, ws, sha)
  {
    var cs := Consumers(ws);
    ThreeSites(ws);
    EffectiveCommitIs(ws.root, cs[0]);
    EffectiveCommitIs(ws.root, cs[1]);
    EffectiveCommitIs(ws.root, cs[2]);
    OrphanedOfThree(canonical, SiteOf(ws.root, cs[0]), SiteOf(ws.root, cs[1]), SiteOf(ws.root, cs[2]), sha);
    AllReachableIff(canonical, ws, sha);
  }

  /** Pre-push passes if and only if the consumers are sound and all build from the pushed history. */
  lemma PrePushIff(canonical: Canonical, ws: Workspace, sha: Commit)
    ensures ExitCode(canonical, PrePush(sha), ws) == EXIT_OK <==>
      sha in canonical.objects && AllSound(ws) && AllReachable(canonical, ws, sha)
  {
    AllResolutionSilentIff(ws);
    ReachableOfSites(canonical, ws, sha);
  }

  lemma UniformIff(ws: Workspace, sites: seq<Site>)
    requires sites == AllSites(ws.root, Consumers(ws)) && AllSound(ws)
    ensures !SomeUnresolvable(sites)
    ensures |EffectiveCommits(sites)| == 1 <==> AllAt(ws, sites[0].effective.value)
  {
    var cs := Consumers(ws);
    ThreeSites(ws);
    EffectiveCommitIs(ws.root, cs[0]);
    EffectiveCommitIs(ws.root, cs[1]);
    EffectiveCommitIs(ws.root, cs[2]);
    assert Sound(cs[0]) && Sound(cs[1]) && Sound(cs[2]);
    UniformSites(SiteOf(ws.root, cs[0]), SiteOf(ws.root, cs[1]), SiteOf(ws.root, cs[2]));
    AllAtIff(ws, sites[0].effective.value);
  }

  lemma AllAtIff(ws: Workspace, commit: Commit)
    ensures AllAt(ws, commit) <==>
      && EffectiveCommit(Consumers(ws)[0]) == Some(commit)
      && EffectiveCommit(Consumers(ws)[1]) == Some(commit)
      && EffectiveCommit(Consumers(ws)[2]) == Some(commit)
  {
  }

  lemma UniformSites(a: Site, b: Site, c: Site)
    requires a.effective.Some? && b.effective.Some? && c.effective.Some?
    ensures !SomeUnresolvable([a, b, c])
    ensures |EffectiveCommits([a, b, c])| == 1 <==> a.effective == b.effective == c.effective
  {
    var x, y, z := a.effective.value, b.effective.value, c.effective.value;
    assert a in [a, b, c] && b in [a, b, c] && c in [a, b, c];
    assert EffectiveCommits([a, b, c]) == {x, y, z};
    OneOfThree(x, y, z);
  }

  lemma OneOfThree(x: Commit, y: Commit, z: Commit)
    ensures |{x, y, z}| == 1 <==> x == y == z
  {
    if x == y == z {
      assert {x, y, z} == {x};
    } else if |{x, y, z}| == 1 {
      Singleton({x, y, z}, x, y);
      Singleton({x, y, z}, x, z);
    }
  }

  lemma Singleton(s: set<Commit>, x: Commit, y: Commit)
    requires |s| == 1 && x in s && y in s
    ensures x == y
  {
    assert |s - {x}| == 0;
    assert y !in s - {x};
  }

  /** The canonical HEAD question: equal, or behind it where that is tolerated. */
  predicate Acceptable(canonical: Canonical, tolerant: bool, pin: Commit, head: Commit) {
    pin == head || (tolerant && pin in canonical.objects && head in canonical.objects && Ancestor(pin, head))
  }

  lemma ComparisonIff(canonical: Canonical, tolerant: bool, ws: Workspace, head: Commit)
    ensures var sites := AllSites(ws.root, Consumers(ws));
      |sites| == 3 && (AllSound(ws) ==>
        (Disagreements(canonical, tolerant, sites, head) == [] <==>
          exists pin: Commit :: AllAt(ws, pin) && Acceptable(canonical, tolerant, pin, head)))
  {
    var sites := AllSites(ws.root, Consumers(ws));
    ThreeSites(ws);
    if AllSound(ws) {
      UniformIff(ws, sites);
      var first := sites[0].effective.value;
      ResolutionSilentIff(ws.root, Consumers(ws)[0]);
      assert EffectiveCommit(Consumers(ws)[0]) == Some(first);
      assert forall pin: Commit :: AllAt(ws, pin) ==> pin == first;
    }
  }

  /** Strict mode passes iff all three resolve, no worktree drifted, and every commit is the canonical HEAD. */
  lemma StrictIff(canonical: Canonical, ws: Workspace)
    ensures ExitCode(canonical, Strict, ws) == EXIT_OK <==>
      canonical.head.Some? && AllSound(ws) && AllAt(ws, canonical.head.value)
  {
    AllResolutionSilentIff(ws);
    if canonical.head.Some? {
      ComparisonIff(canonical, false, ws, canonical.head.value);
    }
  }

  lemma TolerantIff(canonical: Canonical, ws: Workspace)
    ensures ExitCode(canonical, Tolerant, ws) == EXIT_OK <==>
      canonical.head.Some? && AllSound(ws) &&
      exists pin: Commit :: AllAt(ws, pin) && Acceptable(canonical, true, pin, canonical.head.value)
  {
    AllResolutionSilentIff(ws);
    if canonical.head.Some? {
      ComparisonIff(canonical, true, ws, canonical.head.value);
    }
  }

  predicate Agree(ws: Workspace) {
    forall i | 0 <= i < 3 :: EffectiveCommit(Consumers(ws)[i]) == EffectiveCommit(Consumers(ws)[0])
  }

  /** Tolerant mode is agreement of the consumers together with pre-push mode against the canonical HEAD. */
  lemma TolerantIsAgreementAndPrePush(canonical: Canonical, ws: Workspace)
    requires canonical.Complete() && canonical.head.Some?
    ensures ExitCode(canonical, Tolerant, ws) == EXIT_OK <==>
      Agree(ws) && ExitCode(canonical, PrePush(canonical.head.value), ws) == EXIT_OK
  {
    var head := canonical.head.value;
    TolerantIff(canonical, ws);
    PrePushIff(canonical, ws, head);
    assert Ancestor(head, head);
    if AllSound(ws) {
      assert Sound(Consumers(ws)[0]);
      var first := EffectiveCommit(Consumers(ws)[0]).value;
      if Agree(ws) {
        assert AllAt(ws, first);
        if AllReachable(canonical, ws, head) {
          assert Acceptable(canonical, true, first, head);
        }
      }
    }
  }

  lemma StrictImpliesTolerant(canonical: Canonical, ws: Workspace)
    ensures ExitCode(canonical, Strict, ws) == EXIT_OK ==> ExitCode(canonical, Tolerant, ws) == EXIT_OK
  {
    StrictIff(canonical, ws);
    TolerantIff(canonical, ws);
    if canonical.head.Some? {
      assert Acceptable(canonical, true, canonical.head.value, canonical.head.value);
    }
  }

  /** A push that is accepted stays acceptable for every commit built on top of it. */
  lemma PrePushCarriesOver(canonical: Canonical, ws: Workspace, sha: Commit, later: Commit)
    requires later in canonical.objects && Ancestor(sha, later)
    ensures ExitCode(canonical, PrePush(sha), ws) == EXIT_OK ==> ExitCode(canonical, PrePush(later), ws) == EXIT_OK
  {
    PrePushIff(canonical, ws, sha);
    PrePushIff(canonical, ws, later);
    if ExitCode(canonical, PrePush(sha), ws) == EXIT_OK {
      forall i | 0 <= i < 3 && EffectiveCommit(Consumers(ws)[i]).Some?
        ensures canonical.IsAncestor(EffectiveCommit(Consumers(ws)[i]).value, later)
      {
        AncestorTransitive(EffectiveCommit(Consumers(ws)[i]).value, sha, later);
      }
    }
  }

  /**
   The wording of the canonical violation: for different commits held by the checkout, `behind`,
   `ahead of` and `diverged from` exclude each other and say what they mean; what tolerant mode
   lets pass is behind by at least one commit.
   */
  lemma RelationsExclusive(canonical: Canonical, pin: Commit, head: Commit)
    requires canonical.Complete() && head in canonical.objects && pin in canonical.objects && pin != head
    ensures RelationTo(canonical, pin, head) == Behind <==> Ancestor(pin, head)
    ensures RelationTo(canonical, pin, head) == Ahead <==> Ancestor(head, pin)
    ensures RelationTo(canonical, pin, head) == Diverged <==> !Ancestor(pin, head) && !Ancestor(head, pin)
    ensures Acceptable(canonical, true, pin, head) <==> Ancestor(pin, head) && CommitsAhead(pin, head) >= 1
  {
    if Ancestor(pin, head) {
      if Ancestor(head, pin) {
        AncestorAntisymmetric(pin, head);
      }
      AheadCount(pin, head);
    }
  }
}
