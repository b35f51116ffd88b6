/** What a run of the parity guard reports, row by row and code by code, in terms of what it observed. */
module ParityReport {
  import opened Wrappers
  import opened Commits
  import opened ParityGuard
  import ParityTheorems

  /** The consumers, where their repositories are, and where each keeps did_rust. */
  lemma ConsumersAre(ws: Workspace)
    ensures Consumers(ws) == [
      Consumer("iyou_idp", "iyou_idp", "crates/did_rust", ws.idp),
      Consumer("iyou_home", "iyou_home", "libs/did_rust", ws.home),
      Consumer("iyou_mobile", "iyou_mobile", "did_rust", ws.mobile)]
  {
  }

  predicate Usable(c: Consumer) {
    c.obs.repoExists && c.obs.headUsable
  }

  predicate InSubmodule(c: Consumer) {
    c.subRel != "-" && c.obs.subDirExists
  }

  predicate CheckedOut(c: Consumer) {
    c.obs.worktreeHead.Some? && c.obs.worktreeIsTop
  }

  /** Which type a row gets: one of eight, for exactly these observations. */
  lemma RowType(root: string, c: Consumer)
    ensures var kind, o := SiteOf(root, c).kind, c.obs;
      && (kind == Missing <==> !o.repoExists)
      && (kind == BrokenRepo <==> o.repoExists && !o.headUsable)
      && (kind == SubmoduleUninitialized <==> Usable(c) && InSubmodule(c) && !CheckedOut(c))
      && (kind == Submodule <==> Usable(c) && InSubmodule(c) && CheckedOut(c) && o.entry.Gitlink?)
      && (kind == VendoredCheckout <==> Usable(c) && InSubmodule(c) && CheckedOut(c) && !o.entry.Gitlink?)
      && (kind == CargoPathDep <==> Usable(c) && !InSubmodule(c) && o.cargo.CargoDep? && o.cargo.head.Some?)
      && (kind == CargoPathDepBroken <==> Usable(c) && !InSubmodule(c) && o.cargo.CargoDep? && o.cargo.head.None?)
      && (kind == Unresolved <==> Usable(c) && !InSubmodule(c) && o.cargo.NoCargoDep?)
  {
  }

  /** The other columns, by the type of the row. */
  lemma RowColumns(root: string, c: Consumer)
    ensures SiteOf(root, c).name == c.name
    ensures SiteOf(root, c).path ==
      match SiteOf(root, c).kind
      case Missing | BrokenRepo | Unresolved => root + "/" + c.repoRel
      case SubmoduleUninitialized | Submodule | VendoredCheckout => root + "/" + c.repoRel + "/" + c.subRel
      case CargoPathDep | CargoPathDepBroken => c.obs.cargo.path
    ensures SiteOf(root, c).recorded ==
      match SiteOf(root, c).kind
      case Submodule | SubmoduleUninitialized => c.obs.entry
      case _ => NoEntry
    ensures SiteOf(root, c).worktree ==
      match SiteOf(root, c).kind
      case Submodule | VendoredCheckout => c.obs.worktreeHead
      case CargoPathDep => c.obs.cargo.head
      case _ => None
    ensures SiteOf(root, c).effective ==
      if SiteOf(root, c).kind.Submodule? then Some(c.obs.entry.pin) else SiteOf(root, c).worktree
  {
  }

  /** The violation that comes with a row, if one does: for every type but three, and for a drifted worktree. */
  lemma RowViolation(root: string, c: Consumer)
    ensures ResolutionViolations(c) ==
      match SiteOf(root, c).kind
      case Missing => [RepoNotFound(c.name)]
      case BrokenRepo => [RepoUnusable(c.name)]
      case SubmoduleUninitialized => [NotInitialized(c.name)]
      case Submodule =>
        if c.obs.worktreeHead == Some(c.obs.entry.pin) then []
        else [WorktreeDiffers(c.name, c.obs.worktreeHead.value, c.obs.entry.pin)]
      case VendoredCheckout | CargoPathDep => []
      case CargoPathDepBroken => [CargoTargetBroken(c.name)]
      case Unresolved => [NoConsumptionPoint(c.name)]
  {
  }

  /** A row whose commit a push would leave behind, as the checkout can tell. */
  predicate LeftBehind(canonical: Canonical, s: Site, sha: Commit) {
    s.effective.Some? &&
    !(s.effective.value in canonical.objects && sha in canonical.objects && Ancestor(s.effective.value, sha))
  }

  /** Pre-push mode reports exactly the rows left behind, in their order. */
  lemma {:induction false} OrphanedIs(canonical: Canonical, sites: seq<Site>, sha: Commit)
    ensures Orphaned(canonical, sites, sha) == [] <==>
      forall i | 0 <= i < |sites| :: !LeftBehind(canonical, sites[i], sha)
    ensures sites != [] ==>
      var front, last := sites[..|sites| - 1], sites[|sites| - 1];
      Orphaned(canonical, sites, sha) == Orphaned(canonical, front, sha) +
        if LeftBehind(canonical, last, sha) then [WouldOrphan(last.name, last.effective.value, sha)] else []
  {
    if sites != [] {
      OrphanedIs(canonical, sites[..|sites| - 1], sha);
    }
  }

  /** The other two modes, on the three rows: what is compared, with what, and what is said. */
  lemma DisagreementIs(canonical: Canonical, tolerant: bool, a: Site, b: Site, c: Site, head: Commit)
    ensures var found := Disagreements(canonical, tolerant, [a, b, c], head);
      if a.effective.None? || b.effective.None? || c.effective.None? then found == []
      else
        var x, y, z := a.effective.value, b.effective.value, c.effective.value;
        if !(x == y == z) then found == [ConsumersDiffer({x, y, z})]
        else
          var held := x in canonical.objects && head in canonical.objects;
          if x == head || (tolerant && held && Ancestor(x, head)) then found == []
          else if held && Ancestor(x, head) then found == [CanonicalDiffers(x, head, Behind)]
          else if held && Ancestor(head, x) then found == [CanonicalDiffers(x, head, Ahead)]
          else found == [CanonicalDiffers(x, head, Diverged)]
  {
    var sites := [a, b, c];
    assert sites[0] == a && sites[1] == b && sites[2] == c;
    if a.effective.Some? && b.effective.Some? && c.effective.Some? {
      ParityTheorems.UniformSites(a, b, c);
      var x, y, z := a.effective.value, b.effective.value, c.effective.value;
      assert a in sites && b in sites && c in sites;
      assert EffectiveCommits(sites) == {x, y, z};
    } else {
      SomeNone(sites);
    }
  }

  lemma SomeNone(sites: seq<Site>)
    requires |sites| == 3 && (sites[0].effective.None? || sites[1].effective.None? || sites[2].effective.None?)
    ensures SomeUnresolvable(sites)
  {
  }

  /** The list of a run: the rows' own violations first, in the order of the consumers, then the mode's. */
  lemma RunViolations(canonical: Canonical, mode: Mode, ws: Workspace, reference: Commit)
    ensures var cs := Consumers(ws);
      var a, b, c := SiteOf(ws.root, cs[0]), SiteOf(ws.root, cs[1]), SiteOf(ws.root, cs[2]);
      AllViolations(canonical, mode, ws, reference) ==
        ResolutionViolations(cs[0]) + ResolutionViolations(cs[1]) + ResolutionViolations(cs[2])
        + match mode
          case PrePush(sha) => Orphaned(canonical, [a, b, c], sha)
          case Strict => Disagreements(canonical, false, [a, b, c], reference)
          case Tolerant => Disagreements(canonical, true, [a, b, c], reference)
  {
    ThreeSites(ws);
  }

  /** 2 without a commit to compare with, before anything is looked at; else 0 for an empty list and 1. */
  lemma ExitCodes(canonical: Canonical, mode: Mode, ws: Workspace)
    ensures ExitCode(canonical, mode, ws) == 2 <==>
      if mode.PrePush? then mode.sha !in canonical.objects else canonical.head.None?
    ensures mode.PrePush? && mode.sha in canonical.objects ==>
      ExitCode(canonical, mode, ws) == if AllViolations(canonical, mode, ws, mode.sha) == [] then 0 else 1
    ensures !mode.PrePush? && canonical.head.Some? ==>
      ExitCode(canonical, mode, ws) == if AllViolations(canonical, mode, ws, canonical.head.value) == [] then 0 else 1
  {
  }
}
