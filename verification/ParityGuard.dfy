/** scripts/check_did_submodules.sh: the commit-parity guard over the three consumer repositories. */
module ParityGuard {
  import opened Wrappers
  import opened Commits

  // ----- what the script observes -----

  /** The line of `git ls-tree HEAD` for the submodule path: a gitlink pins a commit. */
  datatype Entry = NoEntry | Gitlink(pin: Commit) | OtherEntry(id: string)

  /** A Cargo path dependency on did_rust and the HEAD of the directory it points to. */
  datatype CargoDep = NoCargoDep | CargoDep(path: string, head: Option<Commit>)

  datatype Observation = Observation(
    repoExists: bool, headUsable: bool, subDirExists: bool, entry: Entry,
    worktreeHead: Option<Commit>, worktreeIsTop: bool, cargo: CargoDep)

  datatype Workspace = Workspace(root: string, idp: Observation, home: Observation, mobile: Observation)

  datatype Consumer = Consumer(name: string, repoRel: string, subRel: string, obs: Observation)

  /** The canonical checkout: its HEAD, if it is a repository, and the commits it holds. */
  datatype Canonical = Canonical(head: Option<Commit>, objects: set<Commit>) {
    /** A clone holds the history of every commit it holds. */
    ghost predicate Complete() {
      && (head.Some? ==> head.value in objects)
      && forall d, a | d in objects && Ancestor(a, d) :: a in objects
    }

    /** The git query fails, like a negative answer, on commits the checkout does not hold. */
    predicate IsAncestor(a: Commit, d: Commit) {
      a in objects && d in objects && Ancestor(a, d)
    }
  }

  datatype Mode = Strict | Tolerant | PrePush(sha: Commit)

  // ----- what it reports -----

  datatype SiteType =
    | Missing | BrokenRepo | SubmoduleUninitialized | Submodule | VendoredCheckout
    | CargoPathDep | CargoPathDepBroken | Unresolved

  /** One row of the report; effective is None where the script writes `unresolvable`. */
  datatype Site = Site(
    name: string, kind: SiteType, path: string, recorded: Entry,
    worktree: Option<Commit>, effective: Option<Commit>)

  datatype Relation = Behind | Ahead | Diverged

  datatype Violation =
    | RepoNotFound(name: string)
    | RepoUnusable(name: string)
    | NotInitialized(name: string)
    | WorktreeDiffers(name: string, head: Commit, pin: Commit)
    | CargoTargetBroken(name: string)
    | NoConsumptionPoint(name: string)
    | WouldOrphan(name: string, pin: Commit, pushed: Commit)
    | ConsumersDiffer(commits: set<Commit>)
    | CanonicalDiffers(pin: Commit, head: Commit, relation: Relation)

  const EXIT_OK := 0
  const EXIT_PARITY := 1
  const EXIT_ENV := 2

  // ----- resolving one consumer -----

  function RepoPath(root: string, c: Consumer): string {
    root + "/" + c.repoRel
  }

  function SubPath(root: string, c: Consumer): string {
    RepoPath(root, c) + "/" + c.subRel
  }

  predicate Initialized(o: Observation) {
    o.worktreeHead.Some? && o.worktreeIsTop
  }

  predicate HasSubDir(c: Consumer) {
    c.subRel != "-" && c.obs.subDirExists
  }

  function SiteOf(root: string, c: Consumer): Site {
    var o := c.obs;
    if !o.repoExists then Site(c.name, Missing, RepoPath(root, c), NoEntry, None, None)
    else if !o.headUsable then Site(c.name, BrokenRepo, RepoPath(root, c), NoEntry, None, None)
    else if HasSubDir(c) then
      if !Initialized(o) then Site(c.name, SubmoduleUninitialized, SubPath(root, c), o.entry, None, None)
      else if o.entry.Gitlink? then
        Site(c.name, Submodule, SubPath(root, c), o.entry, o.worktreeHead, Some(o.entry.pin))
      else Site(c.name, VendoredCheckout, SubPath(root, c), NoEntry, o.worktreeHead, o.worktreeHead)
    else
      match o.cargo
      case CargoDep(path, Some(head)) => Site(c.name, CargoPathDep, path, NoEntry, Some(head), Some(head))
      case CargoDep(path, None) => Site(c.name, CargoPathDepBroken, path, NoEntry, None, None)
      case NoCargoDep => Site(c.name, Unresolved, RepoPath(root, c), NoEntry, None, None)
  }

  function ResolutionViolations(c: Consumer): seq<Violation> {
    var o := c.obs;
    if !o.repoExists then [RepoNotFound(c.name)]
    else if !o.headUsable then [RepoUnusable(c.name)]
    else if HasSubDir(c) then
      if !Initialized(o) then [NotInitialized(c.name)]
      else if o.entry.Gitlink? && o.worktreeHead.value != o.entry.pin then
        [WorktreeDiffers(c.name, o.worktreeHead.value, o.entry.pin)]
      else []
    else
      match o.cargo
      case CargoDep(_, Some(_)) => []
      case CargoDep(_, None) => [CargoTargetBroken(c.name)]
      case NoCargoDep => [NoConsumptionPoint(c.name)]
  }

  function Consumers(ws: Workspace): seq<Consumer> {
    [Consumer("iyou_idp", "iyou_idp", "crates/did_rust", ws.idp),
     Consumer("iyou_home", "iyou_home", "libs/did_rust", ws.home),
     Consumer("iyou_mobile", "iyou_mobile", "did_rust", ws.mobile)]
  }

  function AllSites(root: string, cs: seq<Consumer>): seq<Site> {
    if cs == [] then [] else AllSites(root, cs[..|cs| - 1]) + [SiteOf(root, cs[|cs| - 1])]
  }

  function AllResolutionViolations(cs: seq<Consumer>): seq<Violation> {
    if cs == [] then [] else AllResolutionViolations(cs[..|cs| - 1]) + ResolutionViolations(cs[|cs| - 1])
  }

  // ----- the decision -----

  function Orphaned(canonical: Canonical, sites: seq<Site>, sha: Commit): seq<Violation> {
    if sites == [] then []
    else
      var front, last := sites[..|sites| - 1], sites[|sites| - 1];
      Orphaned(canonical, front, sha) +
      if last.effective.Some? && !canonical.IsAncestor(last.effective.value, sha)
      then [WouldOrphan(last.name, last.effective.value, sha)] else []
  }

  predicate SomeUnresolvable(sites: seq<Site>) {
    exists i | 0 <= i < |sites| :: sites[i].effective.None?
  }

  function EffectiveCommits(sites: seq<Site>): set<Commit> {
    set s | s in sites && s.effective.Some? :: s.effective.value
  }

  function RelationTo(canonical: Canonical, pin: Commit, head: Commit): Relation {
    if canonical.IsAncestor(pin, head) then Behind
    else if canonical.IsAncestor(head, pin) then Ahead
    else Diverged
  }

  function Disagreements(canonical: Canonical, tolerant: bool, sites: seq<Site>, head: Commit): seq<Violation>
    requires sites != []
  {
    if SomeUnresolvable(sites) then []
    else if |EffectiveCommits(sites)| != 1 then [ConsumersDiffer(EffectiveCommits(sites))]
    else
      assert sites[0].effective.Some?;
      var pin := sites[0].effective.value;
      if pin == head || (tolerant && canonical.IsAncestor(pin, head)) then []
      else [CanonicalDiffers(pin, head, RelationTo(canonical, pin, head))]
  }

  /** The commit the script compares with; None is an environment error, reported before any site. */
  function Reference(canonical: Canonical, mode: Mode): Option<Commit> {
    match mode
    case PrePush(sha) => if sha in canonical.objects then Some(sha) else None
    case _ => canonical.head
  }

  function AllViolations(canonical: Canonical, mode: Mode, ws: Workspace, reference: Commit): seq<Violation> {
    var sites := AllSites(ws.root, Consumers(ws));
    ThreeSites(ws);
    AllResolutionViolations(Consumers(ws)) +
    match mode
    case PrePush(sha) => Orphaned(canonical, sites, sha)
    case _ => Disagreements(canonical, mode.Tolerant?, sites, reference)
  }

  function ExitCode(canonical: Canonical, mode: Mode, ws: Workspace): int {
    match Reference(canonical, mode)
    case None => EXIT_ENV
    case Some(reference) => if AllViolations(canonical, mode, ws, reference) == [] then EXIT_OK else EXIT_PARITY
  }

  lemma ThreeSites(ws: Workspace)
    ensures var cs := Consumers(ws);
      AllSites(ws.root, cs) == [SiteOf(ws.root, cs[0]), SiteOf(ws.root, cs[1]), SiteOf(ws.root, cs[2])]
    ensures var cs := Consumers(ws);
      AllResolutionViolations(cs) ==
        ResolutionViolations(cs[0]) + ResolutionViolations(cs[1]) + ResolutionViolations(cs[2])
  {
    var cs := Consumers(ws);
    assert cs[..2] == [cs[0], cs[1]] && [cs[0], cs[1]][..1] == [cs[0]] && [cs[0]][..0] == [];
    assert AllSites(ws.root, [cs[0]]) == [SiteOf(ws.root, cs[0])];
    assert AllSites(ws.root, [cs[0], cs[1]]) == [SiteOf(ws.root, cs[0]), SiteOf(ws.root, cs[1])];
    assert AllResolutionViolations([cs[0]]) == ResolutionViolations(cs[0]);
    assert AllResolutionViolations([cs[0], cs[1]]) == ResolutionViolations(cs[0]) + ResolutionViolations(cs[1]);
  }

  // ----- the script -----

  /** The script's global arrays: six parallel ones with a row per site, and the violations. */
  class Checker {
    const root: string
    const canonical: Canonical
    var names: seq<string>
    var types: seq<SiteType>
    var paths: seq<string>
    var recorded: seq<Entry>
    var worktree: seq<Option<Commit>>
    var effective: seq<Option<Commit>>
    var violations: seq<Violation>

    ghost predicate Aligned()
      reads this
    {
      |names| == |types| == |paths| == |recorded| == |worktree| == |effective|
    }

    /** The rows of the six arrays. */
    ghost function Sites(): (s: seq<Site>)
      requires Aligned()
      reads this
      ensures |s| == |names|
    {
      seq(|names|, i requires 0 <= i < |names| && Aligned() reads this =>
        Site(names[i], types[i], paths[i], recorded[i], worktree[i], effective[i]))
    }

    constructor (root: string, canonical: Canonical)
      ensures this.root == root && this.canonical == canonical
      ensures Aligned() && Sites() == [] && violations == []
    {
      this.root, this.canonical := root, canonical;
      names, types, paths, recorded, worktree, effective, violations := [], [], [], [], [], [], [];
    }

    method EmitSite(s: Site)
      requires Aligned()
      modifies this
      ensures Aligned() && Sites() == old(Sites()) + [s] && violations == old(violations)
    {
      names := names + [s.name];
      types := types + [s.kind];
      paths := paths + [s.path];
      recorded := recorded + [s.recorded];
      worktree := worktree + [s.worktree];
      effective := effective + [s.effective];
    }

    method AddViolation(v: Violation)
      requires Aligned()
      modifies this`violations
      ensures Aligned() && Sites() == old(Sites()) && violations == old(violations) + [v]
    {
      violations := violations + [v];
    }

    method ResolveConsumer(c: Consumer)
      requires Aligned()
      modifies this
      ensures Aligned() && Sites() == old(Sites()) + [SiteOf(root, c)]
      ensures violations == old(violations) + ResolutionViolations(c)
    {
      var o := c.obs;
      var repo := root + "/" + c.repoRel;
      if !o.repoExists {
        AddViolation(RepoNotFound(c.name));
        EmitSite(Site(c.name, Missing, repo, NoEntry, None, None));
        return;
      }
      if !o.headUsable {
        AddViolation(RepoUnusable(c.name));
        EmitSite(Site(c.name, BrokenRepo, repo, NoEntry, None, None));
        return;
      }
      if c.subRel != "-" && o.subDirExists {
        var dir := repo + "/" + c.subRel;
        if o.worktreeHead.None? || !o.worktreeIsTop {
          AddViolation(NotInitialized(c.name));
          EmitSite(Site(c.name, SubmoduleUninitialized, dir, o.entry, None, None));
          return;
        }
        if o.entry.Gitlink? {
          if o.worktreeHead.value != o.entry.pin {
            AddViolation(WorktreeDiffers(c.name, o.worktreeHead.value, o.entry.pin));
          }
          EmitSite(Site(c.name, Submodule, dir, o.entry, o.worktreeHead, Some(o.entry.pin)));
        } else {
          EmitSite(Site(c.name, VendoredCheckout, dir, NoEntry, o.worktreeHead, o.worktreeHead));
        }
        return;
      }
      if o.cargo.CargoDep? {
        if o.cargo.head.Some? {
          EmitSite(Site(c.name, CargoPathDep, o.cargo.path, NoEntry, o.cargo.head, o.cargo.head));
        } else {
          AddViolation(CargoTargetBroken(c.name));
          EmitSite(Site(c.name, CargoPathDepBroken, o.cargo.path, NoEntry, None, None));
        }
        return;
      }
      AddViolation(NoConsumptionPoint(c.name));
      EmitSite(Site(c.name, Unresolved, repo, NoEntry, None, None));
    }

    /** The loop of pre-push mode over the rows. */
    method RequireReachable(sha: Commit)
      requires Aligned()
      modifies this`violations
      ensures Aligned() && Sites() == old(Sites())
      ensures violations == old(violations) + Orphaned(canonical, Sites(), sha)
    {
      var i := 0;
      while i < |names|
        invariant 0 <= i <= |names| && Aligned() && Sites() == old(Sites())
        invariant violations == old(violations) + Orphaned(canonical, Sites()[..i], sha)
      {
        ghost var before, rows := violations, Sites();
        assert rows[..i + 1][..i] == rows[..i] && rows[i].effective == effective[i] && rows[i].name == names[i];
        if effective[i].Some? && !canonical.IsAncestor(effective[i].value, sha) {
          AddViolation(WouldOrphan(names[i], effective[i].value, sha));
        }
        i := i + 1;
      }
      assert Sites()[..|names|] == Sites();
    }

    /** The other modes: one pass for unresolvable rows, then agreement, then the canonical HEAD. */
    method CompareWithCanonical(tolerant: bool, head: Commit)
      requires Aligned() && |names| > 0
      modifies this`violations
      ensures Aligned() && Sites() == old(Sites())
      ensures violations == old(violations) + Disagreements(canonical, tolerant, Sites(), head)
    {
      ghost var rows := Sites();
      var hasUnresolvable := false;
      var commits: set<Commit> := {};
      var i := 0;
      while i < |names|
        invariant 0 <= i <= |names| && violations == old(violations)
        invariant hasUnresolvable <==> SomeUnresolvable(rows[..i])
        invariant commits == EffectiveCommits(rows[..i])
      {
        assert rows[..i + 1] == rows[..i] + [rows[i]] && rows[i].effective == effective[i];
        AddRow(rows[..i], rows[i]);
        if effective[i].None? {
          hasUnresolvable := true;
        } else {
          commits := commits + {effective[i].value};
        }
        i := i + 1;
      }
      assert rows[..|names|] == rows;
      if hasUnresolvable {
        assert violations + [] == violations;
      } else if |commits| != 1 {
        AddViolation(ConsumersDiffer(commits));
      } else {
        assert rows[0].effective == effective[0];
        assert violations + [] == violations;
        var pin := effective[0].value;
        if pin != head {
          if !(tolerant && canonical.IsAncestor(pin, head)) {
            var relation := Diverged;
            if canonical.IsAncestor(pin, head) {
              relation := Behind;
            } else if canonical.IsAncestor(head, pin) {
              relation := Ahead;
            }
            AddViolation(CanonicalDiffers(pin, head, relation));
          }
        }
      }
    }
  }

  lemma AddRow(rows: seq<Site>, row: Site)
    ensures SomeUnresolvable(rows + [row]) <==> SomeUnresolvable(rows) || row.effective.None?
    ensures EffectiveCommits(rows + [row]) ==
      EffectiveCommits(rows) + if row.effective.Some? then {row.effective.value} else {}
  {
    var all := rows + [row];
    assert all[|rows|] == row && forall i | 0 <= i < |rows| :: all[i] == rows[i];
    assert forall s :: s in all <==> s in rows || s == row;
  }

  /** The whole script, from its arguments to its exit code. */
  method CheckSubmodules(canonical: Canonical, mode: Mode, ws: Workspace)
    returns (exitCode: int, checker: Checker)
    ensures exitCode == ExitCode(canonical, mode, ws)
    ensures fresh(checker) && checker.Aligned()
    ensures Reference(canonical, mode).None? ==> checker.Sites() == [] && checker.violations == []
    ensures Reference(canonical, mode).Some? ==>
      && checker.Sites() == AllSites(ws.root, Consumers(ws))
      && checker.violations == AllViolations(canonical, mode, ws, Reference(canonical, mode).value)
  {
    checker := new Checker(ws.root, canonical);
    var reference := Reference(canonical, mode);
    if reference.None? {
      return EXIT_ENV, checker;
    }
    var cs := Consumers(ws);
    for i := 0 to |cs|
      invariant checker.Aligned() && checker.Sites() == AllSites(ws.root, cs[..i])
      invariant checker.violations == AllResolutionViolations(cs[..i])
    {
      checker.ResolveConsumer(cs[i]);
      assert cs[..i + 1][..i] == cs[..i];
    }
    assert cs[..|cs|] == cs;
    ThreeSites(ws);
    if mode.PrePush? {
      checker.RequireReachable(mode.sha);
    } else {
      checker.CompareWithCanonical(mode.Tolerant?, reference.value);
    }
    return if checker.violations == [] then EXIT_OK else EXIT_PARITY, checker;
  }
}
