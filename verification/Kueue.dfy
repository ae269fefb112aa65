/** The Kueue upgrade protocol (install_or_upgrade in src/xpk/core/kueue_manager.py): any command may fail
    and any consent may be refused.  A version is represented by its rank in the order of versions. */
module Kueue {
  import opened Text

  /** What the image tag of the deployed controller says. */
  datatype Image = Version(rank: int) | Custom

  datatype Command =
    | DeleteInstances(crd: string) | DeleteCrd(crd: string) | DeleteDeployment
    | ApplyManifest | PatchTolerations | WaitAvailable

  predicate IsDeletion(c: Command) {
    c.DeleteInstances? || c.DeleteCrd? || c.DeleteDeployment?
  }

  /** The answer to one command: its return code, and whether it took effect all the same. */
  datatype Answer = Answer(code: int, done: bool)

  /** The answers during one run: "answer" by the number of the command in the run, the query for the
      installed version or its owner may fail, the listing of the definitions has a code of its own. */
  datatype World = World(
    answer: nat -> Answer, versionQueryFails: bool, ownerQueryFails: bool,
    listCode: int, consent: bool, configureCode: int)

  /** What one run is about: the version to install, the latest breaking version, the definitions that the
      manifest brings, whether there are tolerations, and the answers. */
  datatype Job = Job(target: int, breaking: int, manifestCrds: seq<string>, tolerations: bool, world: World)

  /** A command that returns 0 took effect. */
  ghost predicate Honest(w: World) {
    forall n: nat :: w.answer(n).code == 0 ==> w.answer(n).done
  }

  ghost predicate Truthful(w: World) {
    !w.versionQueryFails && !w.ownerQueryFails
  }

  /** Nothing goes wrong and the user agrees. */
  ghost predicate FaultFree(w: World) {
    Honest(w) && Truthful(w) && w.listCode == 0 && w.consent && w.configureCode == 0
    && forall n: nat :: w.answer(n).code == 0
  }

  /** The part of the cluster that the protocol is about. */
  datatype State = State(deployed: Option<Image>, external: bool, crds: seq<string>)

  // ----- one run -----

  /** How far a run has come: the cluster, the commands issued so far, and the last return code. */
  datatype Progress = Progress(state: State, log: seq<Command>, code: int)

  function Without(crds: seq<string>, x: string): seq<string> {
    if crds == [] then [] else (if crds[0] == x then [] else [crds[0]]) + Without(crds[1..], x)
  }

  /** What a command does to the cluster when it takes effect. */
  function Effect(s: State, c: Command, j: Job): State {
    match c
    case DeleteCrd(crd) => s.(crds := Without(s.crds, crd))
    case DeleteDeployment => s.(deployed := None, external := false)
    case ApplyManifest => s.(deployed := Some(Version(j.target)), crds := j.manifestCrds)
    case _ => s
  }

  function Issue(p: Progress, c: Command, j: Job): Progress {
    var a := j.world.answer(|p.log|);
    Progress(if a.done then Effect(p.state, c, j) else p.state, p.log + [c], a.code)
  }

  /** The commands in turn, up to the first one that fails. */
  function IssueAll(p: Progress, commands: seq<Command>, j: Job): Progress
    decreases commands
  {
    if commands == [] then p
    else
      var q := Issue(p, commands[0], j);
      if q.code != 0 then q else IssueAll(q, commands[1..], j)
  }

  /** One command, again and again until it succeeds, at most "tries" times. */
  function Retried(p: Progress, c: Command, tries: nat, j: Job): Progress
    requires tries >= 1
    decreases tries
  {
    var q := Issue(p, c, j);
    if q.code == 0 || tries == 1 then q else Retried(q, c, tries - 1, j)
  }

  function InstancesOf(crds: seq<string>): (r: seq<Command>)
    ensures |r| == |crds| && forall i | 0 <= i < |r| :: r[i] == DeleteInstances(crds[i])
  {
    seq(|crds|, i requires 0 <= i < |crds| => DeleteInstances(crds[i]))
  }

  function DefinitionsOf(crds: seq<string>): (r: seq<Command>)
    ensures |r| == |crds| && forall i | 0 <= i < |r| :: r[i] == DeleteCrd(crds[i])
  {
    seq(|crds|, i requires 0 <= i < |crds| => DeleteCrd(crds[i]))
  }

  /** All deletions of an upgrade over a breaking version: all instances, all definitions, the deployment. */
  function DeletionPlan(crds: seq<string>): (r: seq<Command>)
    ensures |r| == 2 * |crds| + 1 && forall c | c in r :: IsDeletion(c)
  {
    InstancesOf(crds) + DefinitionsOf(crds) + [DeleteDeployment]
  }

  /** The plan by position: the instances of every definition, every definition, the deployment. */
  lemma PlanShape(crds: seq<string>)
    ensures var plan, n := DeletionPlan(crds), |crds|;
      && |plan| == 2 * n + 1 && plan[2 * n] == DeleteDeployment
      && forall i | 0 <= i < n :: plan[i] == DeleteInstances(crds[i]) && plan[n + i] == DeleteCrd(crds[i])
  {
  }

  /** "kubectl get crd | grep" fails when nothing is listed. */
  function ListingCode(s: State, w: World): int {
    if s.crds == [] then 1 else w.listCode
  }

  function Deleted(p: Progress, j: Job): Progress {
    var code := ListingCode(p.state, j.world);
    if code != 0 then p.(code := code) else IssueAll(p.(code := 0), DeletionPlan(p.state.crds), j)
  }

  function Prepared(p: Progress, installed: int, j: Job): Progress {
    if installed >= j.breaking then p.(code := 0)
    else if !j.world.consent then p.(code := 1)
    else Deleted(p, j)
  }

  function Installed(p: Progress, j: Job): Progress {
    var q := Retried(p, ApplyManifest, 5, j);
    if q.code != 0 then q
    else
      var q := if j.tolerations then Retried(q, PatchTolerations, 5, j) else q;
      if q.code != 0 then q else Issue(q, WaitAvailable, j)
  }

  function InstalledAndConfigured(p: Progress, j: Job): Progress {
    var q := Installed(p, j);
    if q.code != 0 then q else q.(code := j.world.configureCode)
  }

  /** A whole run.  Configuring changes neither the version nor the definitions. */
  function RunJob(s: State, j: Job): Progress {
    var p := Progress(s, [], 0);
    if j.world.versionQueryFails || s.deployed.None? then InstalledAndConfigured(p, j)
    else if s.deployed.value.Custom? || s.deployed.value.rank >= j.target || (!j.world.ownerQueryFails && s.external) then
      p.(code := j.world.configureCode)
    else
      var q := Prepared(p, s.deployed.value.rank, j);
      if q.code != 0 then q else InstalledAndConfigured(q, j)
  }

  /** The cluster, with the commands of the current run. */
  class KueueCluster {
    var deployed: Option<Image>
    var external: bool
    var crds: seq<string>
    var log: seq<Command>

    constructor (s: State)
      ensures Now() == s && log == []
    {
      deployed, external, crds, log := s.deployed, s.external, s.crds, [];
    }

    ghost function Now(): State
      reads this
    {
      State(deployed, external, crds)
    }

    ghost function At(code: int): Progress
      reads this
    {
      Progress(Now(), log, code)
    }

    method Run(c: Command, j: Job) returns (code: int)
      modifies this
      ensures At(code) == Issue(old(At(0)), c, j)
    {
      var a := j.world.answer(|log|);
      log := log + [c];
      if a.done {
        match c
        case DeleteCrd(crd) =>
          crds := Without(crds, crd);
        case DeleteDeployment =>
          deployed, external := None, false;
        case ApplyManifest =>
          deployed, crds := Some(Version(j.target)), j.manifestCrds;
        case _ =>
      }
      code := a.code;
    }

    /** __delete_all_kueue_resources */
    method DeleteAllKueueResources(j: Job) returns (code: int)
      modifies this
      ensures At(code) == Deleted(old(At(0)), j)
    {
      hide Issue; hide IssueAll;
      code := if crds == [] then 1 else j.world.listCode;
      if code != 0 {
        return;
      }
      var kueueCrds := crds;
      ghost var plan := DeletionPlan(kueueCrds);
      ghost var final := IssueAll(At(0), plan, j);
      assert plan[0..] == plan;
      for i := 0 to |kueueCrds|
        invariant code == 0 && IssueAll(At(0), plan[i..], j) == final
      {
        IssueNext(At(0), plan, i, j);
        code := Run(DeleteInstances(kueueCrds[i]), j);
        if code != 0 {
          return;
        }
      }
      for i := 0 to |kueueCrds|
        invariant code == 0 && IssueAll(At(0), plan[|kueueCrds| + i..], j) == final
      {
        IssueNext(At(0), plan, |kueueCrds| + i, j);
        code := Run(DeleteCrd(kueueCrds[i]), j);
        if code != 0 {
          return;
        }
      }
      IssueNext(At(0), plan, 2 * |kueueCrds|, j);
      code := Run(DeleteDeployment, j);
      IssueNothing(At(0), plan, j);
    }

    /** __prepare_for_upgrade */
    method PrepareForUpgrade(installed: int, j: Job) returns (code: int)
      modifies this
      ensures At(code) == Prepared(old(At(0)), installed, j)
    {
      if installed >= j.breaking {
        return 0;
      }
      if !j.world.consent {
        return 1;
      }
      code := DeleteAllKueueResources(j);
    }

    /** run_command_with_updates_retry */
    method Retry(c: Command, j: Job) returns (code: int)
      modifies this
      ensures At(code) == Retried(old(At(0)), c, 5, j)
    {
      hide Issue; hide Retried;
      ghost var final := Retried(At(0), c, 5, j);
      code := -1;
      var i: nat := 0;
      while code != 0 && i < 5
        decreases 5 - i
        invariant i <= 5 && (i == 0 ==> code == -1)
        invariant if i < 5 && code != 0 then Retried(At(0), c, 5 - i, j) == final else At(code) == final
      {
        RetriedOnce(At(0), c, 5 - i, j);
        code := Run(c, j);
        i := i + 1;
      }
    }

    /** __install */
    method Install(j: Job) returns (code: int)
      modifies this
      ensures At(code) == Installed(old(At(0)), j)
    {
      hide Retried; hide Issue;
      code := Retry(ApplyManifest, j);
      if code != 0 {
        return;
      }
      if j.tolerations {
        code := Retry(PatchTolerations, j);
        if code != 0 {
          return;
        }
      }
      code := Run(WaitAvailable, j);
    }

    /** install_or_upgrade */
    method InstallOrUpgrade(j: Job) returns (code: int)
      modifies this
      ensures At(code) == RunJob(old(Now()), j)
    {
      hide Installed; hide Prepared;
      log := [];
      if !j.world.versionQueryFails && deployed.Some? {
        if deployed.value.Custom? {
          return j.world.configureCode;
        }
        var installed := deployed.value.rank;
        if installed >= j.target {
          return j.world.configureCode;
        }
        if !j.world.ownerQueryFails && external {
          return j.world.configureCode;
        }
        code := PrepareForUpgrade(installed, j);
        if code != 0 {
          return;
        }
      }
      code := Install(j);
      if code != 0 {
        return;
      }
      return j.world.configureCode;
    }
  }

  lemma IssueNext(p: Progress, plan: seq<Command>, i: nat, j: Job)
    requires i < |plan|
    ensures var q := Issue(p, plan[i], j);
      IssueAll(p, plan[i..], j) == if q.code != 0 then q else IssueAll(q, plan[i + 1..], j)
  {
    hide Issue;
    assert plan[i..][1..] == plan[i + 1..];
  }

  lemma IssueNothing(p: Progress, plan: seq<Command>, j: Job)
    ensures IssueAll(p, plan[|plan|..], j) == p
  {
  }

  /** The code before a try does not matter. */
  lemma RetriedOnce(p: Progress, c: Command, tries: nat, j: Job)
    requires tries >= 1
    ensures var q := Issue(p, c, j);
      Retried(p, c, tries, j)
      == if q.code == 0 || tries == 1 then q else Retried(Progress(q.state, q.log, 0), c, tries - 1, j)
  {
    var q := Issue(p, c, j);
    assert Issue(Progress(q.state, q.log, 0), c, j) == Issue(q, c, j);
  }

  // ----- the parts of a run -----

  lemma {:induction false} IssueAllAppend(p: Progress, a: seq<Command>, b: seq<Command>, j: Job)
    requires p.code == 0
    ensures var q := IssueAll(p, a, j);
      IssueAll(p, a + b, j) == if q.code != 0 then q else IssueAll(q, b, j)
    decreases a
  {
    hide Issue;
    if a == [] {
      assert a + b == b;
    } else {
      assert (a + b)[1..] == a[1..] + b;
      var q := Issue(p, a[0], j);
      if q.code == 0 {
        IssueAllAppend(q, a[1..], b, j);
      }
    }
  }

  /** The first "k" commands were issued; each had to succeed before the next one. */
  ghost predicate IssuedFirst(p: Progress, commands: seq<Command>, q: Progress, k: nat, j: Job) {
    && k <= |commands| && q.log == p.log + commands[..k]
    && (forall n: nat | |p.log| <= n < |q.log| - 1 :: j.world.answer(n).code == 0)
    && (k == 0 ==> q == p && commands == [])
    && (k > 0 ==> q.code == j.world.answer(|q.log| - 1).code)
    && (k < |commands| ==> q.code != 0)
  }

  lemma {:induction false} IssuesInOrder(p: Progress, commands: seq<Command>, j: Job) returns (k: nat)
    requires p.code == 0
    ensures IssuedFirst(p, commands, IssueAll(p, commands, j), k, j)
    decreases commands
  {
    if commands == [] {
      k := 0;
    } else {
      var q := Issue(p, commands[0], j);
      k := 1;
      if q.code == 0 {
        var more := IssuesInOrder(q, commands[1..], j);
        k := more + 1;
        assert commands[..k] == [commands[0]] + commands[1..][..more];
      }
    }
  }

  /** The definitions are deleted, the rest of the cluster stays. */
  ghost predicate DefinitionsOnly(s: State, t: State) {
    t == s.(crds := t.crds) && forall x | x in t.crds :: x in s.crds
  }

  lemma {:induction false} WithoutMembers(crds: seq<string>, x: string)
    ensures forall y :: y in Without(crds, x) <==> y in crds && y != x
  {
    if crds != [] {
      WithoutMembers(crds[1..], x);
    }
  }

  lemma {:induction false} ResourcesDeleted(p: Progress, commands: seq<Command>, j: Job)
    requires forall c | c in commands :: c.DeleteInstances? || c.DeleteCrd?
    ensures DefinitionsOnly(p.state, IssueAll(p, commands, j).state)
    decreases commands
  {
    if commands != [] {
      var c := commands[0];
      if c.DeleteCrd? {
        WithoutMembers(p.state.crds, c.crd);
      }
      ResourcesDeleted(Issue(p, c, j), commands[1..], j);
    }
  }

  /** What the deletions do to the cluster: the deployment goes only with the last command of the plan. */
  ghost predicate DeletionsRun(p: Progress, q: Progress, k: nat, j: Job) {
    var plan := DeletionPlan(p.state.crds);
    && k <= |plan| && q.log == p.log + plan[..k]
    && (forall n: nat | |p.log| <= n < |q.log| - 1 :: j.world.answer(n).code == 0)
    && (k < |plan| ==> q.code != 0)
    && (k > 0 ==> q.code == j.world.answer(|q.log| - 1).code)
    && ((q.state.deployed == p.state.deployed && q.state.external == p.state.external)
        || (k == |plan| && q.state.deployed == None && j.world.answer(|q.log| - 1).done))
    && (k == |plan| && j.world.answer(|q.log| - 1).done ==> q.state.deployed == None)
    && (k == 0 ==> q.state == p.state)
    && (p.state.crds == [] ==> k == 0)
  }

  lemma DeletionsInOrder(p: Progress, j: Job) returns (k: nat)
    ensures DeletionsRun(p, Deleted(p, j), k, j)
    ensures k == 0 <==> ListingCode(p.state, j.world) != 0
  {
    hide IssueAll;
    if ListingCode(p.state, j.world) != 0 {
      k := 0;
    } else {
      var start := p.(code := 0);
      var front, plan := InstancesOf(p.state.crds) + DefinitionsOf(p.state.crds), DeletionPlan(p.state.crds);
      k := IssuesInOrder(start, plan, j);
      ResourcesDeleted(start, front, j);
      IssueAllAppend(start, front, [DeleteDeployment], j);
      var all := IssuesInOrder(start, front, j);
      IssueSingle(IssueAll(start, front, j), DeleteDeployment, j);
    }
  }

  lemma IssueSingle(p: Progress, c: Command, j: Job)
    ensures IssueAll(p, [c], j) == Issue(p, c, j)
  {
    assert [c][1..] == [];
  }

  /** The command was issued "n" times and nothing else; only the last try may have succeeded. */
  ghost predicate Trying(before: seq<Command>, after: seq<Command>, c: Command, n: nat, code: int, w: World) {
    && n >= 1 && |after| == |before| + n && before <= after
    && (forall i | |before| <= i < |after| :: after[i] == c)
    && code == w.answer(|after| - 1).code
    && (forall i: nat | |before| <= i < |after| - 1 :: w.answer(i).code != 0)
  }

  /** One command with retries: how often it was tried, and that its effect is there or not. */
  lemma {:induction false} RetriesEnd(p: Progress, c: Command, tries: nat, j: Job) returns (n: nat)
    requires tries >= 1 && (c.ApplyManifest? || c.PatchTolerations?)
    ensures var q := Retried(p, c, tries, j);
      && 1 <= n <= tries && (n < tries ==> q.code == 0) && Trying(p.log, q.log, c, n, q.code, j.world)
      && (q.state == p.state || q.state == Effect(p.state, c, j))
      && (q.code == 0 && Honest(j.world) ==> q.state == Effect(p.state, c, j))
    decreases tries
  {
    var q := Issue(p, c, j);
    n := 1;
    if q.code != 0 && tries > 1 {
      var more := RetriesEnd(q, c, tries - 1, j);
      n := more + 1;
    }
  }

  ghost predicate NoDeletionsSince(before: seq<Command>, after: seq<Command>) {
    before <= after && forall i | |before| <= i < |after| :: !IsDeletion(after[i])
  }

  /** The commands of a successful installation: the manifest with one to five tries, the tolerations if there
      are any with one to five tries, and the wait. */
  ghost predicate InstallLog(before: seq<Command>, after: seq<Command>, j: Job) {
    exists applied, patched, a, b :: InstallSteps(before, applied, patched, after, a, b, j)
  }

  ghost predicate InstallSteps(before: seq<Command>, applied: seq<Command>, patched: seq<Command>, after: seq<Command>,
                               a: int, b: int, j: Job) {
    && 1 <= a <= 5 && Trying(before, applied, ApplyManifest, a, 0, j.world)
    && (if j.tolerations then 1 <= b <= 5 && Trying(applied, patched, PatchTolerations, b, 0, j.world) else patched == applied)
    && after == patched + [WaitAvailable] && j.world.answer(|patched|).code == 0
  }

  function Target(s: State, j: Job): State {
    Effect(s, ApplyManifest, j)
  }

  /** An installation deletes nothing; it leaves the cluster as it is or brings the target version. */
  lemma InstallEnds(p: Progress, j: Job)
    ensures var q := Installed(p, j);
      && NoDeletionsSince(p.log, q.log) && |q.log| > |p.log|
      && (q.state == p.state || q.state == Target(p.state, j))
      && (q.code == 0 ==> InstallLog(p.log, q.log, j))
      && (q.code == 0 && Honest(j.world) ==> q.state == Target(p.state, j))
  {
    hide Retried;
    var a := RetriesEnd(p, ApplyManifest, 5, j);
    var q := Retried(p, ApplyManifest, 5, j);
    if q.code == 0 {
      var b := 1;
      var t := q;
      if j.tolerations {
        b := RetriesEnd(q, PatchTolerations, 5, j);
        t := Retried(q, PatchTolerations, 5, j);
      }
      if t.code == 0 && Issue(t, WaitAvailable, j).code == 0 {
        assert InstallSteps(p.log, q.log, t.log, Installed(p, j).log, a, b, j);
      }
    }
  }

  // ----- what every run keeps -----

  /** A deployment that is custom-tagged, or managed by another tool. */
  predicate Protected(s: State) {
    s.deployed.Some? && (s.deployed.value.Custom? || s.external)
  }

  /** At the target version or above it. */
  predicate Current(s: State, target: int) {
    s.deployed.Some? && s.deployed.value.Version? && s.deployed.value.rank >= target
  }

  /** Installed below both the target and the breaking version, and not protected. */
  predicate Outdated(s: State, target: int, breaking: int) {
    s.deployed.Some? && s.deployed.value.Version? && !s.external
    && s.deployed.value.rank < target && s.deployed.value.rank < breaking
  }

  /** Outdated, with all resource definitions already gone. */
  predicate Wedged(s: State, target: int, breaking: int) {
    Outdated(s, target, breaking) && s.crds == []
  }

  /** The deletions that a run actually issues, whatever is answered, are the first "k" of the plan, each after
      the success of the one before.  They come before everything else, they are issued for deployments below
      the target and the breaking version only, and the deployment is gone only after all of them. */
  lemma RunDeletesInOrder(s: State, j: Job) returns (k: nat)
    ensures var (q, plan) := (RunJob(s, j), DeletionPlan(s.crds));
      && k <= |plan| && k <= |q.log| && q.log[..k] == plan[..k] && NoDeletionsSince(plan[..k], q.log)
      && (forall n: nat | n < k - 1 :: j.world.answer(n).code == 0)
      && (0 < k < |plan| ==> |q.log| == k && q.code == j.world.answer(k - 1).code != 0)
      && (s.deployed.Some? && q.state.deployed.None? ==> k == |plan|)
      && (k > 0 ==> s.deployed.Some? && s.deployed.value.Version? && s.deployed.value.rank < j.target
                    && s.deployed.value.rank < j.breaking && j.world.consent
                    && !j.world.versionQueryFails && (s.external ==> j.world.ownerQueryFails))
  {
    hide Deleted; hide Installed;
    var p := Progress(s, [], 0);
    k := 0;
    if j.world.versionQueryFails || s.deployed.None? {
      InstallEnds(p, j);
    } else if s.deployed.value.Custom? || s.deployed.value.rank >= j.target || (!j.world.ownerQueryFails && s.external) {
    } else if s.deployed.value.rank >= j.breaking {
      InstallEnds(p, j);
    } else if j.world.consent {
      k := DeletionsInOrder(p, j);
      InstallEnds(Deleted(p, j), j);
    }
  }

  /** A run that succeeds installs completely after its deletions, or issues nothing; then Kueue is configured. */
  lemma SuccessIsComplete(s: State, j: Job)
    requires RunJob(s, j).code == 0
    ensures j.world.configureCode == 0
    ensures RunJob(s, j).log == []
         || InstallLog([], RunJob(s, j).log, j) || InstallLog(DeletionPlan(s.crds), RunJob(s, j).log, j)
  {
    hide Deleted; hide Installed;
    var p := Progress(s, [], 0);
    InstallEnds(p, j);
    var k := DeletionsInOrder(p, j);
    InstallEnds(Deleted(p, j), j);
    if Deleted(p, j).code == 0 {
      assert DeletionPlan(s.crds)[..k] == DeletionPlan(s.crds);
      assert Deleted(p, j).log == DeletionPlan(s.crds);
    }
  }

  /** What a run with truthful queries may do to the cluster. */
  ghost predicate Step(before: State, after: State, target: int, breaking: int) {
    // protected or current deployments, and wedged ones, are left alone
    && (Protected(before) || Wedged(before, target, breaking) || Current(before, target) ==> after == before)
    // the deployment stays, or goes, or becomes the target version
    && (after.deployed == before.deployed || after.deployed == None || after.deployed == Some(Version(target)))
    && (before.deployed.Some? && after.deployed != before.deployed ==>
          before.deployed.value.Version? && before.deployed.value.rank < target)
    && (before.deployed.Some? && after.deployed.None? ==> Outdated(before, target, breaking))
  }

  /** Whatever commands fail and whatever is refused, a run with truthful queries is such a step. */
  lemma RunIsStep(s: State, j: Job)
    requires Truthful(j.world)
    ensures Step(s, RunJob(s, j).state, j.target, j.breaking)
  {
    hide Deleted; hide Installed;
    var p := Progress(s, [], 0);
    InstallEnds(p, j);
    var k := DeletionsInOrder(p, j);
    InstallEnds(Deleted(p, j), j);
  }

  /** A protected deployment is touched only if the query that would have protected it failed. */
  lemma ProtectedUnlessQueryFails(s: State, j: Job)
    requires Protected(s) && RunJob(s, j) != Progress(s, [], j.world.configureCode)
    ensures j.world.versionQueryFails || (s.deployed.value.Version? && j.world.ownerQueryFails)
  {
  }

  /** Protected deployments, and those at the target version or above, are only configured. */
  lemma OnlyConfigured(s: State, j: Job)
    requires Truthful(j.world) && (Protected(s) || Current(s, j.target))
    ensures RunJob(s, j) == Progress(s, [], j.world.configureCode)
  {
  }

  /** Below the breaking version nothing happens without consent, and nothing without definitions to delete. */
  lemma RefusedConsentStops(s: State, j: Job)
    requires Truthful(j.world) && Outdated(s, j.target, j.breaking) && (!j.world.consent || s.crds == [])
    ensures RunJob(s, j).state == s && RunJob(s, j).log == [] && RunJob(s, j).code != 0
  {
    hide Installed; hide IssueAll;
  }

  /** Over a breaking version the manifest is applied only after the whole deletion plan, every command of
      which has succeeded. */
  lemma ManifestNeedsDeletions(s: State, j: Job, i: nat)
    requires Truthful(j.world) && Outdated(s, j.target, j.breaking)
    requires i < |RunJob(s, j).log| && RunJob(s, j).log[i] == ApplyManifest
    ensures var plan := DeletionPlan(s.crds);
      && |plan| <= i && plan <= RunJob(s, j).log
      && j.world.consent && forall n: nat | n < |plan| :: j.world.answer(n).code == 0
  {
    hide Installed; hide Deleted; hide DeletionPlan;
    if !j.world.consent {
      RefusedConsentStops(s, j);
    } else {
      var p := Progress(s, [], 0);
      var k := DeletionsInOrder(p, j);
      var q := Deleted(p, j);
      InstallEnds(q, j);
      var plan := DeletionPlan(s.crds);
      assert forall n | 0 <= n < |plan| :: plan[n] in plan && IsDeletion(plan[n]);
      assert plan[..|plan|] == plan;
    }
  }

  /** From the breaking version on, and where nothing is deployed, a run deletes nothing, whatever the user
      answers: it begins with the manifest, and leaves the cluster or brings the target version. */
  lemma InstallsWithoutDeletions(s: State, j: Job)
    requires Truthful(j.world)
    requires s.deployed.None? || (s.deployed.value.Version? && !s.external && j.breaking <= s.deployed.value.rank < j.target)
    ensures var q := RunJob(s, j);
      && NoDeletionsSince([], q.log) && q.log != [] && q.log[0] == ApplyManifest
      && (q.state == s || q.state == Target(s, j))
  {
    hide Retried;
    InstallEnds(Progress(s, [], 0), j);
    ManifestFirst(Progress(s, [], 0), j);
  }

  lemma ManifestFirst(p: Progress, j: Job)
    ensures |Installed(p, j).log| > |p.log| && Installed(p, j).log[|p.log|] == ApplyManifest
  {
    hide Retried;
    var a := RetriesEnd(p, ApplyManifest, 5, j);
    if j.tolerations {
      var b := RetriesEnd(Retried(p, ApplyManifest, 5, j), PatchTolerations, 5, j);
    }
  }

  /** Success means that an unprotected deployment is at least at the target version. */
  lemma SuccessIsCurrent(s: State, j: Job)
    requires Truthful(j.world) && Honest(j.world) && !Protected(s) && RunJob(s, j).code == 0
    ensures Current(RunJob(s, j).state, j.target)
  {
    hide Deleted; hide Installed;
    var p := Progress(s, [], 0);
    InstallEnds(p, j);
    InstallEnds(Deleted(p, j), j);
  }

  /** Without faults a run succeeds, unless the cluster is wedged. */
  lemma FaultFreeRun(s: State, j: Job)
    requires FaultFree(j.world)
    ensures RunJob(s, j).code == 0 <==> !Wedged(s, j.target, j.breaking)
  {
    hide Deleted; hide Installed;
    var p := Progress(s, [], 0);
    FaultFreeInstall(p, j);
    var k := DeletionsInOrder(p, j);
    FaultFreeInstall(Deleted(p, j), j);
  }

  lemma FaultFreeInstall(p: Progress, j: Job)
    requires FaultFree(j.world)
    ensures Installed(p, j).code == 0
  {
  }

  // ----- sequences of runs -----

  /** The states before and after each of a sequence of runs with truthful queries, each for its own target. */
  ghost predicate Runs(states: seq<State>, jobs: seq<Job>, targets: seq<int>, breaking: int) {
    && |states| == |targets| + 1 && |jobs| == |targets|
    && forall i | 0 <= i < |targets| :: RunAt(states[i], jobs[i], states[i + 1], targets[i], breaking)
  }

  ghost predicate RunAt(before: State, j: Job, after: State, target: int, breaking: int) {
    j.target == target && j.breaking == breaking && Truthful(j.world) && after == RunJob(before, j).state
  }

  /** A run for targets[i] may remove version v, and a later run for targets[k] install a lower one. */
  ghost predicate Drops(targets: seq<int>, breaking: int, i: int, k: int, v: int) {
    0 <= i < k < |targets| && targets[k] < v < targets[i] && v < breaking
  }

  ghost predicate CanDrop(targets: seq<int>, breaking: int) {
    exists i, k, v :: Drops(targets, breaking, i, k, v)
  }

  /** What is known after "n" runs about a version that was deployed earlier. */
  ghost predicate NotBelow(v: int, now: State, targets: seq<int>, breaking: int, n: nat)
    requires n <= |targets|
  {
    match now.deployed
    case Some(Version(u)) => v <= u
    case Some(Custom) => true
    case None => exists i, x :: Removed(targets, breaking, i, n, v, x)
  }

  /** Version x, not below v, was removed by the i-th run. */
  ghost predicate Removed(targets: seq<int>, breaking: int, i: int, n: nat, v: int, x: int)
    requires n <= |targets|
  {
    0 <= i < n && v <= x < targets[i] && x < breaking
  }

  lemma StepKeepsNotBelow(v: int, before: State, after: State, targets: seq<int>, breaking: int, n: nat)
    requires n < |targets| && Step(before, after, targets[n], breaking) && !CanDrop(targets, breaking)
    requires NotBelow(v, before, targets, breaking, n)
    ensures NotBelow(v, after, targets, breaking, n + 1)
  {
    if before.deployed.None? {
      var i, x :| Removed(targets, breaking, i, n, v, x);
      assert Removed(targets, breaking, i, n + 1, v, x);
      assert !Drops(targets, breaking, i, n, x);
    } else if after.deployed.None? {
      assert Removed(targets, breaking, n, n + 1, v, before.deployed.value.rank);
    }
  }

  /** Unless the targets allow a drop, the deployed version never goes down, whatever fails or is refused. */
  lemma {:induction false} VersionNeverDecreases(states: seq<State>, jobs: seq<Job>, targets: seq<int>, breaking: int, i: nat, k: nat, v: int)
    requires Runs(states, jobs, targets, breaking) && !CanDrop(targets, breaking) && i <= k < |states|
    requires states[i].deployed == Some(Version(v))
    ensures NotBelow(v, states[k], targets, breaking, k)
    decreases k
  {
    hide CanDrop; hide NotBelow; hide Step; hide RunJob;
    if i < k {
      VersionNeverDecreases(states, jobs, targets, breaking, i, k - 1, v);
      assert RunAt(states[k - 1], jobs[k - 1], states[(k - 1) + 1], targets[k - 1], breaking);
      RunIsStep(states[k - 1], jobs[k - 1]);
      StepKeepsNotBelow(v, states[k - 1], states[k], targets, breaking, k - 1);
    } else {
      DeployedNotBelow(states[i], v, targets, breaking, k);
    }
  }

  lemma DeployedNotBelow(s: State, v: int, targets: seq<int>, breaking: int, n: nat)
    requires n <= |targets| && s.deployed == Some(Version(v))
    ensures NotBelow(v, s, targets, breaking, n)
  {
  }

  /** Custom-tagged and externally managed deployments survive every sequence of runs unchanged. */
  lemma {:induction false} ProtectedForever(states: seq<State>, jobs: seq<Job>, targets: seq<int>, breaking: int, k: nat)
    requires Runs(states, jobs, targets, breaking) && Protected(states[0]) && k < |states|
    ensures states[k] == states[0]
  {
    hide RunJob;
    if k > 0 {
      ProtectedForever(states, jobs, targets, breaking, k - 1);
      assert RunAt(states[k - 1], jobs[k - 1], states[(k - 1) + 1], targets[k - 1], breaking);
      RunIsStep(states[k - 1], jobs[k - 1]);
    }
  }

  /** Once all definitions are gone while the outdated deployment remains, no run for a newer version ever
      changes anything again: the listing of the definitions fails before the deployment is reached. */
  lemma {:induction false} WedgedForever(states: seq<State>, jobs: seq<Job>, targets: seq<int>, breaking: int, k: nat)
    requires Runs(states, jobs, targets, breaking) && k < |states|
    requires forall i | 0 <= i < |targets| :: Wedged(states[0], targets[i], breaking)
    ensures states[k] == states[0]
  {
    hide RunJob;
    if k > 0 {
      WedgedForever(states, jobs, targets, breaking, k - 1);
      assert RunAt(states[k - 1], jobs[k - 1], states[(k - 1) + 1], targets[k - 1], breaking);
      RunIsStep(states[k - 1], jobs[k - 1]);
    }
  }

  // ----- runs that end badly -----

  /** The commands answered from "from" on, as long as "n" of them, succeed. */
  ghost predicate Succeed(j: Job, from: nat, n: nat) {
    forall i: nat | from <= i < from + n :: j.world.answer(i) == Answer(0, true)
  }

  lemma IssueFirst(p: Progress, c: Command, rest: seq<Command>, j: Job)
    requires p.code == 0 && Succeed(j, |p.log|, 1 + |rest|)
    ensures var q := Progress(Effect(p.state, c, j), p.log + [c], 0);
      IssueAll(p, [c] + rest, j) == IssueAll(q, rest, j) && Succeed(j, |q.log|, |rest|)
  {
    assert ([c] + rest)[1..] == rest;
    assert j.world.answer(|p.log|) == Answer(0, true);
  }

  /** One command that succeeds, and then the rest. */
  lemma IssuedAndRest(p: Progress, c: Command, rest: seq<Command>, all: seq<Command>, final: State, j: Job)
    requires p.code == 0 && all == [c] + rest && Succeed(j, |p.log|, |all|)
    requires var q := Progress(Effect(p.state, c, j), p.log + [c], 0);
      Succeed(j, |q.log|, |rest|) ==> IssueAll(q, rest, j) == Progress(final, q.log + rest, 0)
    ensures IssueAll(p, all, j) == Progress(final, p.log + all, 0)
  {
    hide Issue; hide IssueAll; hide Succeed; hide Effect;
    IssueFirst(p, c, rest, j);
    assert p.log + [c] + rest == p.log + ([c] + rest);
  }

  lemma {:induction false} InstancesSucceed(p: Progress, crds: seq<string>, j: Job)
    requires p.code == 0 && Succeed(j, |p.log|, |crds|)
    ensures IssueAll(p, InstancesOf(crds), j) == Progress(p.state, p.log + InstancesOf(crds), 0)
    decreases crds
  {
    hide Issue; hide Succeed;
    if crds == [] {
      assert p.log + [] == p.log;
    } else {
      hide IssueAll;
      var c, rest := DeleteInstances(crds[0]), InstancesOf(crds[1..]);
      var q := Progress(p.state, p.log + [c], 0);
      if Succeed(j, |q.log|, |rest|) {
        InstancesSucceed(q, crds[1..], j);
      }
      InstancesCons(crds);
      IssuedAndRest(p, c, rest, InstancesOf(crds), p.state, j);
    }
  }

  lemma InstancesCons(crds: seq<string>)
    requires crds != []
    ensures InstancesOf(crds) == [DeleteInstances(crds[0])] + InstancesOf(crds[1..])
    ensures DefinitionsOf(crds) == [DeleteCrd(crds[0])] + DefinitionsOf(crds[1..])
  {
  }

  /** Deleting all definitions leaves none. */
  lemma {:induction false} DefinitionsSucceed(p: Progress, crds: seq<string>, j: Job)
    requires p.code == 0 && Succeed(j, |p.log|, |crds|) && forall x | x in p.state.crds :: x in crds
    ensures IssueAll(p, DefinitionsOf(crds), j) == Progress(p.state.(crds := []), p.log + DefinitionsOf(crds), 0)
    decreases crds
  {
    hide Issue; hide Succeed; hide Without;
    if crds == [] {
      assert p.log + [] == p.log;
      EmptyOrInhabited(p.state.crds);
    } else {
      hide IssueAll;
      var c, rest := DeleteCrd(crds[0]), DefinitionsOf(crds[1..]);
      var q := Progress(Effect(p.state, c, j), p.log + [c], 0);
      WithoutMembers(p.state.crds, crds[0]);
      if Succeed(j, |q.log|, |rest|) {
        DefinitionsSucceed(q, crds[1..], j);
      }
      InstancesCons(crds);
      IssuedAndRest(p, c, rest, DefinitionsOf(crds), p.state.(crds := []), j);
    }
  }

  /** The deletions when all commands but perhaps the last succeed. */
  lemma DeletionsSucceed(p: Progress, j: Job)
    requires p.state.crds != [] && j.world.listCode == 0 && Succeed(j, |p.log|, 2 * |p.state.crds|)
    ensures var crds := p.state.crds;
      var front := InstancesOf(crds) + DefinitionsOf(crds);
      Deleted(p, j) == Issue(Progress(p.state.(crds := []), p.log + front, 0), DeleteDeployment, j)
  {
    hide IssueAll; hide Issue;
    var crds, start := p.state.crds, p.(code := 0);
    var middle := start.(log := start.log + InstancesOf(crds));
    InstancesSucceed(start, crds, j);
    DefinitionsSucceed(middle, crds, j);
    var last := Progress(p.state.(crds := []), middle.log + DefinitionsOf(crds), 0);
    assert DeletionPlan(crds) == InstancesOf(crds) + (DefinitionsOf(crds) + [DeleteDeployment]);
    IssueAllAppend(start, InstancesOf(crds), DefinitionsOf(crds) + [DeleteDeployment], j);
    IssueAllAppend(middle, DefinitionsOf(crds), [DeleteDeployment], j);
    IssueSingle(last, DeleteDeployment, j);
    assert last.log == p.log + (InstancesOf(crds) + DefinitionsOf(crds));
  }

  /** One failing command is enough to wedge a cluster: all deletions succeed up to the last one, and that one
      fails without effect. */
  lemma WedgeIsReached(s: State, j: Job)
    requires Truthful(j.world) && j.world.consent && j.world.listCode == 0
    requires Outdated(s, j.target, j.breaking) && s.crds != [] && Succeed(j, 0, 2 * |s.crds|)
    requires j.world.answer(2 * |s.crds|).code != 0 && !j.world.answer(2 * |s.crds|).done
    ensures RunJob(s, j) == Progress(s.(crds := []), DeletionPlan(s.crds), j.world.answer(2 * |s.crds|).code)
    ensures Wedged(RunJob(s, j).state, j.target, j.breaking)
  {
    hide Deleted;
    DeletionsSucceed(Progress(s, [], 0), j);
    assert [] + (InstancesOf(s.crds) + DefinitionsOf(s.crds)) + [DeleteDeployment] == DeletionPlan(s.crds);
  }

  /** An upgrade that deletes everything and then cannot install leaves nothing deployed. */
  lemma UpgradeLeavesNothing(s: State, j: Job)
    requires Truthful(j.world) && j.world.consent && j.world.listCode == 0
    requires Outdated(s, j.target, j.breaking) && s.crds != [] && Succeed(j, 0, 2 * |s.crds| + 1)
    requires forall n: nat | n >= 2 * |s.crds| + 1 :: j.world.answer(n) == Answer(1, false)
    ensures RunJob(s, j).state == State(None, false, []) && RunJob(s, j).code != 0
  {
    hide Deleted; hide Retried;
    DeletionsSucceed(Progress(s, [], 0), j);
    InstallFails(Deleted(Progress(s, [], 0), j), j);
  }

  lemma InstallFails(p: Progress, j: Job)
    requires forall n: nat | n >= |p.log| :: j.world.answer(n) == Answer(1, false)
    ensures Installed(p, j).state == p.state && Installed(p, j).code == 1
  {
    RetriesFail(p, ApplyManifest, 5, j);
  }

  lemma {:induction false} RetriesFail(p: Progress, c: Command, tries: nat, j: Job)
    requires tries >= 1 && forall n: nat | n >= |p.log| :: j.world.answer(n) == Answer(1, false)
    ensures Retried(p, c, tries, j).state == p.state && Retried(p, c, tries, j).code == 1
    decreases tries
  {
    if tries > 1 {
      RetriesFail(Issue(p, c, j), c, tries - 1, j);
    }
  }

  /** The states that the jobs lead to. */
  function StatesOf(s: State, jobs: seq<Job>): (r: seq<State>)
    ensures |r| == |jobs| + 1 && r[0] == s
    decreases jobs
  {
    if jobs == [] then [s] else [s] + StatesOf(RunJob(s, jobs[0]).state, jobs[1..])
  }

  lemma {:induction false} StatesFollow(s: State, jobs: seq<Job>, i: nat)
    requires i < |jobs|
    ensures StatesOf(s, jobs)[i + 1] == RunJob(StatesOf(s, jobs)[i], jobs[i]).state
    decreases jobs
  {
    hide RunJob;
    if i > 0 {
      StatesFollow(RunJob(s, jobs[0]).state, jobs[1..], i - 1);
    }
  }

  /** The answers that bring a drop about: consent is refused until the i-th run; that run deletes the
      deployment and its three deletions are all that succeeds until the k-th run, which succeeds. */
  function DropWorld(n: nat, i: nat, k: nat): World {
    World(if n < i then (m: nat) => Answer(1, false)
          else if n == i then (m: nat) => if m < 3 then Answer(0, true) else Answer(1, false)
          else if n < k then (m: nat) => Answer(1, false)
          else (m: nat) => Answer(0, true),
          false, false, 0, n >= i, 0)
  }

  function DropJobs(targets: seq<int>, breaking: int, i: nat, k: nat): (r: seq<Job>)
    ensures |r| == |targets|
  {
    seq(|targets|, n requires 0 <= n < |targets| => Job(targets[n], breaking, ["workloads"], false, DropWorld(n, i, k)))
  }

  /** Where the sequence stands before its n-th run. */
  function DropState(n: nat, i: nat, v: int): State {
    if n <= i then State(Some(Version(v)), false, ["workloads"]) else State(None, false, [])
  }

  lemma {:induction false} DropStates(targets: seq<int>, breaking: int, i: nat, k: nat, v: int, n: nat)
    requires Drops(targets, breaking, i, k, v) && n <= k
    ensures StatesOf(DropState(0, i, v), DropJobs(targets, breaking, i, k))[n] == DropState(n, i, v)
  {
    hide StatesOf; hide RunJob;
    if n > 0 {
      DropStates(targets, breaking, i, k, v, n - 1);
      var jobs := DropJobs(targets, breaking, i, k);
      StatesFollow(DropState(0, i, v), jobs, n - 1);
      DropStep(targets, breaking, i, k, v, n - 1);
    }
  }

  lemma DropStep(targets: seq<int>, breaking: int, i: nat, k: nat, v: int, n: nat)
    requires Drops(targets, breaking, i, k, v) && n < k
    ensures RunJob(DropState(n, i, v), DropJobs(targets, breaking, i, k)[n]).state == DropState(n + 1, i, v)
  {
    hide Installed; hide Deleted;
    var s, j := DropState(n, i, v), DropJobs(targets, breaking, i, k)[n];
    if n == i {
      UpgradeLeavesNothing(s, j);
    } else if n > i {
      InstallFails(Progress(s, [], 0), j);
    }
  }

  /** The version is lowered somewhere. */
  ghost predicate Lowered(states: seq<State>) {
    exists i, k, v, u :: LoweredFrom(states, i, k, v, u)
  }

  ghost predicate LoweredFrom(states: seq<State>, i: int, k: int, v: int, u: int) {
    0 <= i < k < |states| && u < v && states[i].deployed == Some(Version(v)) && states[k].deployed == Some(Version(u))
  }

  /** With targets that allow a drop there are runs that lower the version: an upgrade deletes everything and
      fails to install, and a later run installs the lower target.  No answer lies. */
  lemma DowngradeThroughDeletion(targets: seq<int>, breaking: int, i: nat, k: nat, v: int) returns (states: seq<State>, jobs: seq<Job>)
    requires Drops(targets, breaking, i, k, v)
    ensures Runs(states, jobs, targets, breaking) && forall n | 0 <= n < |jobs| :: Honest(jobs[n].world)
    ensures states[i].deployed == Some(Version(v)) && states[k + 1].deployed == Some(Version(targets[k]))
  {
    hide RunJob; hide StatesOf;
    jobs := DropJobs(targets, breaking, i, k);
    states := StatesOf(DropState(0, i, v), jobs);
    forall n | 0 <= n < |targets| ensures RunAt(states[n], jobs[n], states[n + 1], targets[n], breaking) {
      StatesFollow(DropState(0, i, v), jobs, n);
    }
    DropStates(targets, breaking, i, k, v, i);
    DropStates(targets, breaking, i, k, v, k);
    StatesFollow(DropState(0, i, v), jobs, k);
    InstallsFromNothing(DropState(k, i, v), jobs[k]);
  }

  lemma InstallsFromNothing(s: State, j: Job)
    requires s.deployed.None? && FaultFree(j.world)
    ensures RunJob(s, j).state.deployed == Some(Version(j.target))
  {
    hide Installed;
    FaultFreeInstall(Progress(s, [], 0), j);
    InstallEnds(Progress(s, [], 0), j);
  }

  /** Exactly: some sequence of runs for these targets lowers the deployed version if and only if a target is
      followed by a lower one, with a version between them that is below the breaking version. */
  lemma LoweredExactly(targets: seq<int>, breaking: int)
    ensures (exists states, jobs :: Runs(states, jobs, targets, breaking) && Lowered(states)) <==> CanDrop(targets, breaking)
  {
    hide Runs; hide Drops;
    if CanDrop(targets, breaking) {
      var i, k, v :| Drops(targets, breaking, i, k, v);
      DropBounds(targets, breaking, i, k, v);
      var states, jobs := DowngradeThroughDeletion(targets, breaking, i, k, v);
      RunsLength(states, jobs, targets, breaking);
      assert LoweredFrom(states, i, k + 1, v, targets[k]);
    } else {
      forall states: seq<State>, jobs | Runs(states, jobs, targets, breaking) ensures !Lowered(states) {
        RunsLength(states, jobs, targets, breaking);
        forall i, k, v, u | LoweredFrom(states, i, k, v, u) ensures false {
          VersionNeverDecreases(states, jobs, targets, breaking, i, k, v);
        }
      }
    }
  }

  lemma DropBounds(targets: seq<int>, breaking: int, i: int, k: int, v: int)
    requires Drops(targets, breaking, i, k, v)
    ensures 0 <= i < k < |targets| && targets[k] < v
  {
  }

  lemma RunsLength(states: seq<State>, jobs: seq<Job>, targets: seq<int>, breaking: int)
    requires Runs(states, jobs, targets, breaking)
    ensures |states| == |targets| + 1
  {
  }
}
