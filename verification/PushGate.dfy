/**
 scripts/githooks/pre-push and what it protects: over whole runs of pushes, commits, bumps and
 changes on disk, no submodule pin of a consumer is orphaned.
 */
module PushGate {
  import opened Wrappers
  import opened Commits
  import opened ParityGuard
  import opened ParityTheorems

  /** One line of the hook's input; None stands for the all-zero id of a deletion. */
  datatype PushedRef = PushedRef(localRef: string, localSha: Option<Commit>)

  /** Only branch refs that are not deletions are validated; the others are skipped. */
  predicate Guarded(r: PushedRef) {
    r.localSha.Some? && "refs/heads/" <= r.localRef
  }

  predicate Accepts(canonical: Canonical, ws: Workspace, refs: seq<PushedRef>) {
    forall i | 0 <= i < |refs| && Guarded(refs[i]) ::
      ExitCode(canonical, PrePush(refs[i].localSha.value), ws) == EXIT_OK
  }

  /** The hook: its exit code is zero if and only if every guarded ref passes. */
  method PrePushHook(canonical: Canonical, ws: Workspace, refs: seq<PushedRef>) returns (rc: int)
    ensures rc == if Accepts(canonical, ws, refs) then 0 else 1
    ensures rc == 0 <==> forall i | 0 <= i < |refs| && refs[i].localSha.Some? && "refs/heads/" <= refs[i].localRef ::
      ExitCode(canonical, PrePush(refs[i].localSha.value), ws) == 0
  {
    rc := 0;
    for i := 0 to |refs|
      invariant rc == if Accepts(canonical, ws, refs[..i]) then 0 else 1
    {
      var r := refs[i];
      assert refs[..i + 1] == refs[..i] + [r];
      assert [r][0] == r;
      assert Accepts(canonical, ws, refs[..i + 1])
          == (Accepts(canonical, ws, refs[..i]) && Accepts(canonical, ws, [r]));
      if r.localSha.Some? && "refs/heads/" <= r.localRef {
        var exitCode, _ := CheckSubmodules(canonical, PrePush(r.localSha.value), ws);
        if exitCode != EXIT_OK {
          rc := 1;
        }
      }
    }
    assert refs[..|refs|] == refs;
  }

  // ----- when a push keeps a pin -----

  /** Some consumer builds from a commit whose history holds the pin. */
  predicate PinTracked(ws: Workspace, pin: Commit) {
    exists j | 0 <= j < 3 ::
      EffectiveCommit(Consumers(ws)[j]).Some? && Ancestor(pin, EffectiveCommit(Consumers(ws)[j]).value)
  }

  /** No push that the checker lets pass, from any checkout, leaves the pin behind. */
  ghost predicate PushesKeep(ws: Workspace, pin: Commit) {
    forall canonical: Canonical, sha: Commit |
      canonical.Complete() && ExitCode(canonical, PrePush(sha), ws) == EXIT_OK :: Ancestor(pin, sha)
  }

  lemma TrackedPinIsKept(canonical: Canonical, ws: Workspace, sha: Commit, pin: Commit)
    requires ExitCode(canonical, PrePush(sha), ws) == EXIT_OK && PinTracked(ws, pin)
    ensures Ancestor(pin, sha)
  {
    PrePushIff(canonical, ws, sha);
    var j :| 0 <= j < 3 && EffectiveCommit(Consumers(ws)[j]).Some?
      && Ancestor(pin, EffectiveCommit(Consumers(ws)[j]).value);
    AncestorTransitive(pin, EffectiveCommit(Consumers(ws)[j]).value, sha);
  }

  lemma HistoryIsComplete(sha: Commit)
    ensures Canonical(Some(sha), Ancestors(sha)).Complete()
    ensures sha in Ancestors(sha)
  {
    AncestorsAre(sha, sha);
    forall d, a | d in Ancestors(sha) && Ancestor(a, d) ensures a in Ancestors(sha) {
      AncestorsAre(d, sha);
      AncestorTransitive(a, d, sha);
      AncestorsAre(a, sha);
    }
  }

  /** A new merge of three commits, in a checkout that holds its history, leaves out what they leave out. */
  lemma MergeOf(a: Commit, b: Commit, c: Commit, pin: Commit) returns (canonical: Canonical, sha: Commit)
    requires !Ancestor(pin, a) && !Ancestor(pin, b) && !Ancestor(pin, c)
    ensures canonical.Complete() && sha in canonical.objects && !Ancestor(pin, sha)
    ensures canonical.IsAncestor(a, sha) && canonical.IsAncestor(b, sha) && canonical.IsAncestor(c, sha)
  {
    sha := Commit(pin.content + "x", [a, b, c]);
    canonical := Canonical(Some(sha), Ancestors(sha));
    HistoryIsComplete(sha);
    assert |pin.content + "x"| != |pin.content|;
    assert sha.parents[0] == a && sha.parents[1] == b && sha.parents[2] == c;
    assert Ancestor(a, sha.parents[0]) && Ancestor(b, sha.parents[1]) && Ancestor(c, sha.parents[2]);
    assert Ancestor(a, sha) && Ancestor(b, sha) && Ancestor(c, sha);
  }

  /** A merge of what the three consumers build from passes, and leaves an untracked pin behind. */
  lemma UntrackedPinIsDropped(ws: Workspace, pin: Commit) returns (canonical: Canonical, sha: Commit)
    requires AllSound(ws) && !PinTracked(ws, pin)
    ensures canonical.Complete() && ExitCode(canonical, PrePush(sha), ws) == EXIT_OK && !Ancestor(pin, sha)
  {
    var cs := Consumers(ws);
    var a, b, c := EffectiveCommit(cs[0]), EffectiveCommit(cs[1]), EffectiveCommit(cs[2]);
    assert Sound(cs[0]) && Sound(cs[1]) && Sound(cs[2]);
    canonical, sha := MergeOf(a.value, b.value, c.value, pin);
    PrePushIff(canonical, ws, sha);
  }

  /**
   Exactly when the checker protects a pin: when some consumer that it can judge builds from a
   descendant of it, or when a consumer is in a state that blocks every push.
   */
  lemma PinKeptIff(ws: Workspace, pin: Commit)
    ensures PushesKeep(ws, pin) <==> !AllSound(ws) || PinTracked(ws, pin)
  {
    if AllSound(ws) && !PinTracked(ws, pin) {
      var canonical, sha := UntrackedPinIsDropped(ws, pin);
    } else {
      forall canonical: Canonical, sha: Commit |
        canonical.Complete() && ExitCode(canonical, PrePush(sha), ws) == EXIT_OK
        ensures Ancestor(pin, sha)
      {
        PrePushIff(canonical, ws, sha);
        TrackedPinIsKept(canonical, ws, sha, pin);
      }
    }
  }

  /** No commit that the hook lets through under this local name leaves the pin behind. */
  ghost predicate NameProtects(ws: Workspace, name: string, pin: Commit) {
    forall canonical: Canonical, sha: Commit |
      canonical.Complete() && Accepts(canonical, ws, [PushedRef(name, Some(sha))]) :: Ancestor(pin, sha)
  }

  lemma AcceptsOne(canonical: Canonical, ws: Workspace, name: string, sha: Commit)
    ensures Accepts(canonical, ws, [PushedRef(name, Some(sha))]) <==>
      ("refs/heads/" <= name ==> ExitCode(canonical, PrePush(sha), ws) == EXIT_OK)
  {
    var r := PushedRef(name, Some(sha));
    assert [r][0] == r;
  }

  /** A new commit without history reaches no older pin. */
  lemma FreshCommit(pin: Commit) returns (sha: Commit)
    ensures !Ancestor(pin, sha)
  {
    sha := Commit(pin.content + "x", []);
    assert |pin.content + "x"| != |pin.content|;
  }

  /**
   Which local names protect which pins, in any workspace: exactly the branch names, as long as the
   pin is tracked or no push can pass. Any other name lets a commit through that drops any pin.
   */
  lemma NameProtectsIff(ws: Workspace, name: string, pin: Commit)
    ensures NameProtects(ws, name, pin) <==> "refs/heads/" <= name && (!AllSound(ws) || PinTracked(ws, pin))
  {
    forall canonical: Canonical, sha: Commit
      ensures Accepts(canonical, ws, [PushedRef(name, Some(sha))]) <==>
        ("refs/heads/" <= name ==> ExitCode(canonical, PrePush(sha), ws) == EXIT_OK)
    {
      AcceptsOne(canonical, ws, name, sha);
    }
    PinKeptIff(ws, pin);
    if !("refs/heads/" <= name) {
      var sha := FreshCommit(pin);
      HistoryIsComplete(sha);
      var canonical := Canonical(Some(sha), Ancestors(sha));
      assert canonical.Complete() && Accepts(canonical, ws, [PushedRef(name, Some(sha))]);
    }
  }

  /** A consumer that resolves is judged by its recorded pin exactly when it has the directory, and then tracks it. */
  lemma PinIsJudgedIff(canonical: Canonical, ws: Workspace, sha: Commit, i: nat)
    requires i < 3 && ExitCode(canonical, PrePush(sha), ws) == EXIT_OK
    requires Consumers(ws)[i].obs.entry.Gitlink?
    ensures SiteOf(ws.root, Consumers(ws)[i]).kind.Submodule? <==> Consumers(ws)[i].obs.subDirExists
    ensures Consumers(ws)[i].obs.subDirExists ==>
      PinTracked(ws, Consumers(ws)[i].obs.entry.pin) && Ancestor(Consumers(ws)[i].obs.entry.pin, sha)
  {
    PrePushIff(canonical, ws, sha);
    var c := Consumers(ws)[i];
    assert Sound(c) && c.subRel != "-";
    if c.obs.subDirExists {
      assert EffectiveCommit(c) == Some(c.obs.entry.pin) && Ancestor(c.obs.entry.pin, c.obs.entry.pin);
    }
  }

  /** Without its submodule directory a consumer is judged by its path dependency, and the pin can be dropped. */
  lemma MissingDirectoryHidesPin() returns (canonical: Canonical, ws: Workspace, sha: Commit, pin: Commit)
    ensures canonical.Complete() && ws.idp.entry == Gitlink(pin) && !ws.idp.subDirExists
    ensures ExitCode(canonical, PrePush(sha), ws) == EXIT_OK && !Ancestor(pin, sha)
  {
    var kept := Commit("kept", []);
    pin := Commit("dropped", []);
    var o := Observation(true, true, false, Gitlink(pin), None, false, CargoDep("did_rust", Some(kept)));
    ws := Workspace("root", o, o, o);
    forall i | 0 <= i < 3 ensures Sound(Consumers(ws)[i]) && EffectiveCommit(Consumers(ws)[i]) == Some(kept) {
      assert Consumers(ws)[i].obs == o;
    }
    canonical, sha := UntrackedPinIsDropped(ws, pin);
  }

  // ----- runs -----

  /** The tip of the published branch, the canonical checkout and the consumers on disk. */
  datatype State = State(published: Commit, canonical: Canonical, ws: Workspace)

  datatype Submodule = Idp | Home

  datatype Step =
    /** A push, forced or not, whose chosen ref updates the published branch, by whatever local name. */
    | Push(refs: seq<PushedRef>, chosen: nat)
    /** Local work in the canonical checkout: more commits, another HEAD. */
    | Work(canonical: Canonical)
    /** A consumer commits a new pin. */
    | Bump(which: Submodule, pin: Commit)
    /** Worktrees, submodule directories, repositories and path dependencies change on disk. */
    | Disturb(ws: Workspace)

  predicate Enabled(s: State, step: Step) {
    match step
    case Push(refs, chosen) => chosen < |refs| && refs[chosen].localSha.Some? && Accepts(s.canonical, s.ws, refs)
    case Work(_) => true
    case Bump(_, pin) => Ancestor(pin, s.published)
    case Disturb(ws) => ws.idp.entry == s.ws.idp.entry && ws.home.entry == s.ws.home.entry
  }

  function Next(s: State, step: Step): State
    requires Enabled(s, step)
  {
    match step
    case Push(refs, chosen) => s.(published := refs[chosen].localSha.value)
    case Work(canonical) => s.(canonical := canonical)
    case Bump(Idp, pin) => s.(ws := s.ws.(idp := s.ws.idp.(entry := Gitlink(pin))))
    case Bump(Home, pin) => s.(ws := s.ws.(home := s.ws.home.(entry := Gitlink(pin))))
    case Disturb(ws) => s.(ws := ws)
  }

  predicate IsRun(s: State, steps: seq<Step>)
    decreases |steps|
  {
    steps != [] ==> Enabled(s, steps[0]) && IsRun(Next(s, steps[0]), steps[1..])
  }

  predicate HasPins(s: State) {
    s.ws.idp.entry.Gitlink? && s.ws.home.entry.Gitlink?
  }

  /** Both committed pins are in the published history. */
  predicate PinsPublished(s: State) {
    && HasPins(s)
    && Ancestor(s.ws.idp.entry.pin, s.published) && Ancestor(s.ws.home.entry.pin, s.published)
  }

  /** The state after a run. */
  function Final(s: State, steps: seq<Step>): State
    requires IsRun(s, steps)
    decreases |steps|
  {
    if steps == [] then s else Final(Next(s, steps[0]), steps[1..])
  }

  /** Runs leave nothing out: from any state they lead to every state whose pins are published. */
  lemma EveryPublishedStateIsReachable(s: State, t: State) returns (steps: seq<Step>)
    requires PinsPublished(t)
    ensures IsRun(s, steps) && Final(s, steps) == t
  {
    var push := Push([PushedRef("HEAD", Some(t.published))], 0);
    var idp, home := Bump(Idp, t.ws.idp.entry.pin), Bump(Home, t.ws.home.entry.pin);
    AcceptsOne(s.canonical, s.ws, "HEAD", t.published);
    var a := Next(s, push);
    var b := Next(a, idp);
    var c := Next(b, home);
    var d := Next(c, Disturb(t.ws));
    assert Next(d, Work(t.canonical)) == t;
    FinalStep(d, Work(t.canonical), []);
    steps := [Work(t.canonical)] + [];
    FinalStep(c, Disturb(t.ws), steps);
    steps := [Disturb(t.ws)] + steps;
    FinalStep(b, home, steps);
    steps := [home] + steps;
    FinalStep(a, idp, steps);
    steps := [idp] + steps;
    FinalStep(s, push, steps);
    steps := [push] + steps;
  }

  lemma FinalStep(s: State, step: Step, rest: seq<Step>)
    requires Enabled(s, step) && IsRun(Next(s, step), rest)
    ensures IsRun(s, [step] + rest) && Final(s, [step] + rest) == Final(Next(s, step), rest)
  {
    assert ([step] + rest)[1..] == rest;
  }

  /** The branch is updated from a branch ref, while some consumer tracks each of the two pins. */
  predicate TrackedPush(s: State, refs: seq<PushedRef>, chosen: nat)
    requires HasPins(s) && chosen < |refs|
  {
    && Guarded(refs[chosen])
    && PinTracked(s.ws, s.ws.idp.entry.pin) && PinTracked(s.ws, s.ws.home.entry.pin)
  }

  lemma StepKeepsPins(s: State, step: Step)
    requires PinsPublished(s) && Enabled(s, step)
    requires step.Push? ==> TrackedPush(s, step.refs, step.chosen)
    ensures PinsPublished(Next(s, step))
  {
    if step.Push? {
      var sha := step.refs[step.chosen].localSha.value;
      TrackedPinIsKept(s.canonical, s.ws, sha, s.ws.idp.entry.pin);
      TrackedPinIsKept(s.canonical, s.ws, sha, s.ws.home.entry.pin);
    }
  }

  lemma StepHasPins(s: State, step: Step)
    requires HasPins(s) && Enabled(s, step)
    ensures HasPins(Next(s, step))
  {
  }

  ghost predicate AlwaysPublished(s: State, steps: seq<Step>)
    requires IsRun(s, steps)
    decreases |steps|
  {
    PinsPublished(s) && (steps != [] ==> AlwaysPublished(Next(s, steps[0]), steps[1..]))
  }

  /** Every push of the run is made from a branch ref while both pins of that moment are tracked. */
  ghost predicate AllTracked(s: State, steps: seq<Step>)
    requires IsRun(s, steps) && HasPins(s)
    decreases |steps|
  {
    steps != [] ==>
      && (steps[0].Push? ==> TrackedPush(s, steps[0].refs, steps[0].chosen))
      && HasPins(Next(s, steps[0])) && AllTracked(Next(s, steps[0]), steps[1..])
  }

  /**
   No orphaned pins over whole runs. The condition speaks of the workspace and the name of the ref
   at each push, never of the commit pushed or of what the branch held.
   */
  lemma {:induction false} TrackedRunKeepsPins(s: State, steps: seq<Step>)
    requires PinsPublished(s) && IsRun(s, steps) && AllTracked(s, steps)
    ensures AlwaysPublished(s, steps)
    decreases |steps|
  {
    if steps != [] {
      StepKeepsPins(s, steps[0]);
      TrackedRunKeepsPins(Next(s, steps[0]), steps[1..]);
    }
  }

  /** Local work of any kind, then a push of any commit of it by this name. */
  function WorkThenPush(canonical: Canonical, name: string, sha: Commit): seq<Step> {
    [Work(canonical), Push([PushedRef(name, Some(sha))], 0)]
  }

  /** No such run, if the hook lets it happen, orphans a pin. */
  ghost predicate NameKeepsPins(s: State, name: string) {
    forall canonical: Canonical, sha: Commit |
      canonical.Complete() && IsRun(s, WorkThenPush(canonical, name, sha)) ::
      AlwaysPublished(s, WorkThenPush(canonical, name, sha))
  }

  lemma WorkThenPushRuns(s: State, canonical: Canonical, name: string, sha: Commit)
    requires PinsPublished(s)
    ensures var steps := WorkThenPush(canonical, name, sha);
      && IsRun(s, steps) == Accepts(canonical, s.ws, [PushedRef(name, Some(sha))])
      && (IsRun(s, steps) ==>
            AlwaysPublished(s, steps) == (Ancestor(s.ws.idp.entry.pin, sha) && Ancestor(s.ws.home.entry.pin, sha)))
  {
    var steps := WorkThenPush(canonical, name, sha);
    var worked := Next(s, steps[0]);
    assert steps[1..] == [steps[1]] && steps[1..][1..] == [];
    assert IsRun(s, steps) == IsRun(worked, steps[1..]);
    assert IsRun(worked, steps[1..]) == Enabled(worked, steps[1]);
    if IsRun(s, steps) {
      assert AlwaysPublished(s, steps) == AlwaysPublished(worked, steps[1..]);
      assert AlwaysPublished(worked, steps[1..]) == PinsPublished(Next(worked, steps[1]));
    }
  }

  /**
   The condition of TrackedRunKeepsPins is the weakest on name and workspace: from any state with
   published pins, work and a push by this name can never orphan one, whatever the work and the
   commit, if and only if the name is a branch and both pins are tracked or no push can pass.
   */
  lemma NameKeepsPinsIff(s: State, name: string)
    requires PinsPublished(s)
    ensures NameKeepsPins(s, name) <==>
      && "refs/heads/" <= name
      && (!AllSound(s.ws) || (PinTracked(s.ws, s.ws.idp.entry.pin) && PinTracked(s.ws, s.ws.home.entry.pin)))
  {
    var idp, home := s.ws.idp.entry.pin, s.ws.home.entry.pin;
    NameProtectsIff(s.ws, name, idp);
    NameProtectsIff(s.ws, name, home);
    forall canonical: Canonical, sha: Commit
      ensures var steps := WorkThenPush(canonical, name, sha);
        && IsRun(s, steps) == Accepts(canonical, s.ws, [PushedRef(name, Some(sha))])
        && (IsRun(s, steps) ==> AlwaysPublished(s, steps) == (Ancestor(idp, sha) && Ancestor(home, sha)))
    {
      WorkThenPushRuns(s, canonical, name, sha);
    }
    assert NameKeepsPins(s, name) <==> NameProtects(s.ws, name, idp) && NameProtects(s.ws, name, home);
  }

  /** Every push updates the branch from a branch ref, while both submodule directories exist. */
  ghost predicate AllGuarded(s: State, steps: seq<Step>)
    requires IsRun(s, steps)
    decreases |steps|
  {
    steps != [] ==>
      && (steps[0].Push? ==> GuardedPush(s, steps[0].refs, steps[0].chosen))
      && AllGuarded(Next(s, steps[0]), steps[1..])
  }

  predicate GuardedPush(s: State, refs: seq<PushedRef>, chosen: nat)
    requires chosen < |refs|
  {
    Guarded(refs[chosen]) && s.ws.idp.subDirExists && s.ws.home.subDirExists
  }

  /** What an accepted push covers: the recorded pins and whatever commit iyou_mobile builds against. */
  lemma AcceptedPushCovers(s: State, refs: seq<PushedRef>, chosen: nat)
    requires HasPins(s) && Enabled(s, Push(refs, chosen)) && GuardedPush(s, refs, chosen)
    ensures var sha := refs[chosen].localSha.value;
      && Ancestor(s.ws.idp.entry.pin, sha) && Ancestor(s.ws.home.entry.pin, sha)
      && var mobile := EffectiveCommit(Consumers(s.ws)[2]);
         mobile.Some? && Ancestor(mobile.value, sha)
  {
    var sha, cs := refs[chosen].localSha.value, Consumers(s.ws);
    PinIsJudgedIff(s.canonical, s.ws, sha, 0);
    PinIsJudgedIff(s.canonical, s.ws, sha, 1);
    PrePushIff(s.canonical, s.ws, sha);
    assert Sound(cs[2]);
  }

  lemma {:induction false} GuardedIsTracked(s: State, steps: seq<Step>)
    requires HasPins(s) && IsRun(s, steps) && AllGuarded(s, steps)
    ensures AllTracked(s, steps)
    decreases |steps|
  {
    if steps != [] {
      if steps[0].Push? {
        var sha := steps[0].refs[steps[0].chosen].localSha.value;
        PinIsJudgedIff(s.canonical, s.ws, sha, 0);
        PinIsJudgedIff(s.canonical, s.ws, sha, 1);
      }
      StepHasPins(s, steps[0]);
      GuardedIsTracked(Next(s, steps[0]), steps[1..]);
    }
  }

  /** The discipline the hook is made for is enough, however often the branch is rewritten. */
  lemma GuardedRunKeepsPins(s: State, steps: seq<Step>)
    requires PinsPublished(s) && IsRun(s, steps) && AllGuarded(s, steps)
    ensures AlwaysPublished(s, steps)
  {
    GuardedIsTracked(s, steps);
    TrackedRunKeepsPins(s, steps);
  }

  /** From every state with published pins, any name that is no branch carries a commit that orphans one. */
  lemma UnguardedPushOrphans(s: State, name: string) returns (sha: Commit)
    requires PinsPublished(s) && !("refs/heads/" <= name)
    ensures var step := Push([PushedRef(name, Some(sha))], 0);
      Enabled(s, step) && !PinsPublished(Next(s, step))
  {
    sha := FreshCommit(s.ws.idp.entry.pin);
    AcceptsOne(s.canonical, s.ws, name, sha);
  }
}
