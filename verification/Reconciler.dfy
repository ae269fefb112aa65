/** The node-pool reconciler: run_gke_node_pool_create_command of src/xpk/core/nodepool.py as a method
    that changes the pools of a cluster. */
module Reconciler {
  import opened Text
  import opened NodePools
  import opened Reservations
  import opened Capacity

  datatype CapacityType = OnDemand | Reserved | Spot | FlexStart | Unknown

  /** What the user asks for. */
  datatype Request = Request(
    cluster: string, zone: string,
    isGpu: bool, numSlices: int, vmsPerPool: nat, chipsPerVm: nat,
    capacity: CapacityType, reservations: seq<Link>, superSlicing: bool, validateReservations: bool,
    workloadIdentity: bool, pathways: bool, usesPlacement: bool, ignoreCreationErrors: bool)

  /** The answer to one create or delete command: its return code and whether it took effect. */
  datatype Answer = Answer(code: int, done: bool)

  /** The answers of the cloud and of the user during one run. */
  datatype World = World(
    listing: seq<string>, listingCode: int, capacityCode: int,
    poolZone: string, poolZoneCode: int, check: bool, requested: bool,
    metadataMode: string -> (int, string), consentDelete: bool, consentUpdate: bool,
    delete: string -> Answer, create: string -> Answer, update: string -> int,
    configMapCode: int, placementReady: bool, snapshot: Snapshot)

  /** How a run ends: with a return code, or with an exception. */
  datatype Outcome = Returned(code: int) | Raised

  function DesiredCount(r: Request): int {
    if r.isGpu then 1 else r.numSlices
  }

  /** Present managed pools that are not deleted. */
  function Remaining(existing: seq<string>, cluster: string, toDelete: seq<string>): seq<string> {
    if existing == [] then []
    else
      (if (IsManaged(cluster, existing[0]) || existing[0] in LEGACY_POOLS) && existing[0] !in toDelete
       then [existing[0]] else [])
      + Remaining(existing[1..], cluster, toDelete)
  }

  /** [np for np in desired if np not in remain] */
  function Missing(desired: seq<string>, remain: seq<string>): seq<string> {
    if desired == [] then []
    else (if desired[0] !in remain then [desired[0]] else []) + Missing(desired[1..], remain)
  }

  lemma {:induction false} RemainingMembers(existing: seq<string>, cluster: string, toDelete: seq<string>)
    ensures forall x :: x in Remaining(existing, cluster, toDelete) <==>
      x in existing && (IsManaged(cluster, x) || x in LEGACY_POOLS) && x !in toDelete
  {
    hide IsManaged; hide LEGACY_POOLS;
    if existing != [] {
      RemainingMembers(existing[1..], cluster, toDelete);
    }
  }

  lemma {:induction false} MissingMembers(desired: seq<string>, remain: seq<string>)
    ensures forall x :: x in Missing(desired, remain) <==> x in desired && x !in remain
  {
    if desired != [] {
      MissingMembers(desired[1..], remain);
    }
  }

  /** The commands one run issues: the desired names, the pools to delete, the pools to update, the pools to
      create, and the reservations of the created ones: targets[i] belongs to created[i]. */
  datatype Run = Run(desired: seq<string>, deleted: seq<string>, updated: seq<string>, created: seq<string>,
                     targets: seq<Option<Link>>)

  function Deletions(r: Request, w: World, desired: seq<string>): seq<string> {
    ToDelete(w.listing, r.cluster, desired, w.check, w.requested)
  }

  function Creations(r: Request, w: World, desired: seq<string>): seq<string> {
    Missing(desired, Remaining(w.listing, r.cluster, Deletions(r, w, desired)))
    + (if r.pathways && CPU_POOL !in w.listing then [CPU_POOL] else [])
  }

  lemma CreationsAre(r: Request, w: World, desired: seq<string>)
    ensures Creations(r, w, desired)
         == Missing(desired, Remaining(w.listing, r.cluster, Deletions(r, w, desired)))
            + (if r.pathways && CPU_POOL !in w.listing then [CPU_POOL] else [])
  {
  }

  /** The issued commands are those of the plan; "complete" runs issue all of them. */
  ghost predicate FollowsPlan(r: Request, w: World, run: Run, complete: bool) {
    && (run.deleted != [] ==> run.deleted == Deletions(r, w, run.desired))
    && (run.created != [] ==> run.created == Creations(r, w, run.desired) && run.deleted == Deletions(r, w, run.desired))
    && (complete ==> run.deleted == Deletions(r, w, run.desired) && run.created == Creations(r, w, run.desired))
    && (complete || run.deleted != [] || run.created != [] ==>
          w.listingCode == 0
          && exists used: nat :: IsDesired(run.desired, w.listing, r.cluster, DesiredCount(r), used))
  }

  /** Every command of the run took effect. */
  ghost predicate AllDone(run: Run, w: World) {
    (forall x | x in run.deleted :: w.delete(x).done) && (forall x | x in run.created :: w.create(x).done)
  }

  /** The managed pools are the desired ones; the legacy pools are gone; the CPU pool is there if Pathways
      needs it; every other pool is as before. */
  ghost predicate Converged(before: set<string>, after: set<string>, r: Request, desired: seq<string>) {
    forall x :: x in after <==>
      if IsManaged(r.cluster, x) then x in desired
      else if x in LEGACY_POOLS then false
      else x in before || (r.pathways && x == CPU_POOL)
  }

  /** A pool that no run of this cluster may change. */
  ghost predicate Foreign(cluster: string, x: string) {
    !IsManaged(cluster, x) && x !in LEGACY_POOLS && x != CPU_POOL
  }

  /** A query about a kept pool fails. */
  predicate QueryFails(r: Request, w: World, toDelete: seq<string>) {
    r.workloadIdentity && exists i | 0 <= i < |w.listing| :: w.listing[i] !in toDelete && w.metadataMode(w.listing[i]).0 != 0
  }

  /** A kept pool without Workload Identity, when that is asked for. */
  predicate NeedsUpdate(r: Request, w: World, toDelete: seq<string>, x: string) {
    r.workloadIdentity && x in w.listing && x !in toDelete && w.poolZone != "" && w.metadataMode(x).1 != "GKE_METADATA"
  }

  predicate AnyUpdateFailed(names: seq<string>, w: World) {
    exists i | 0 <= i < |names| :: w.update(names[i]) > 0
  }

  /** The run ends for the pools that are present: a bad zone, or a failing query about a kept pool. */
  predicate Stops(r: Request, w: World, desired: seq<string>) {
    w.listing != [] && (BadZone(r, w) || QueryFails(r, w, Deletions(r, w, desired)))
  }

  /** The run goes on after its deletions: there are none, or they are agreed to and none fails. */
  predicate DeletionsPass(r: Request, w: World, desired: seq<string>) {
    var toDelete := Deletions(r, w, desired);
    w.listingCode == 0 && w.capacityCode <= 0 && !Stops(r, w, desired)
    && (toDelete == [] || (w.consentDelete && !AnyFailed(toDelete, w.delete)))
  }

  /** The Workload Identity updates end the run: one of them fails, or the ConfigMap cannot be changed. */
  ghost predicate UpdatesEnd(r: Request, w: World, desired: seq<string>) {
    var toDelete := Deletions(r, w, desired);
    exists x :: NeedsUpdate(r, w, toDelete, x)
      && ((w.consentUpdate && w.update(x) > 0)
          || (Remaining(w.listing, r.cluster, toDelete) == [] && w.configMapCode != 0))
  }

  /** Each new pool has what it needs: a reservation, or nothing without reservations. */
  ghost predicate TargetsFit(r: Request, s: Snapshot, targets: seq<Option<Link>>, n: nat)
    requires r.vmsPerPool > 0 && r.chipsPerVm > 0
  {
    && |targets| == n
    && (!r.capacity.Reserved? ==> forall t | t in targets :: t == None)
    && (r.capacity.Reserved? && n > 0 ==> Served(r, s, targets))
  }

  /** The stages after the deletions: what ends the run before the creations, and what is created. */
  ghost predicate LateStages(r: Request, w: World, outcome: Outcome, updated: seq<string>, created: seq<string>,
                             targets: seq<Option<Link>>, missing: seq<string>, remain: seq<string>, toUpdate: seq<string>)
    requires r.vmsPerPool > 0 && r.chipsPerVm > 0
  {
    var ends := AnyUpdateFailed(updated, w) || (toUpdate != [] && remain == [] && w.configMapCode != 0);
    && updated == (if w.consentUpdate then toUpdate else [])
    && (ends ==> outcome == Returned(1) && created == [])
    && (!ends && r.usesPlacement && !w.placementReady ==> outcome == Raised && created == [])
    && (!ends && (r.usesPlacement ==> w.placementReady) ==>
          if !CanServe(r, w.snapshot, |missing|) || (missing != [] && r.capacity.Unknown?) then
            created == [] && outcome != Returned(0)
          else
            && created == missing + (if r.pathways && CPU_POOL !in w.listing then [CPU_POOL] else [])
            && TargetsFit(r, w.snapshot, targets, |missing|)
            && outcome == Returned(if AnyFailed(created, w.create) && !r.ignoreCreationErrors then 1 else 0))
  }

  /** Nothing ends a run early, and no command of its plan fails. */
  ghost predicate NoFaults(r: Request, w: World, desired: seq<string>)
    requires r.vmsPerPool > 0 && r.chipsPerVm > 0
  {
    var toDelete := Deletions(r, w, desired);
    && w.listingCode == 0 && w.capacityCode <= 0 && !r.capacity.Unknown?
    && (w.listing == [] || (!BadZone(r, w) && !QueryFails(r, w, toDelete)))
    && (toDelete == [] || (w.consentDelete && !AnyFailed(toDelete, w.delete)))
    && (forall x :: w.update(x) <= 0) && w.configMapCode == 0 && (r.usesPlacement ==> w.placementReady)
    && CanServe(r, w.snapshot, |Missing(desired, Remaining(w.listing, r.cluster, toDelete))|)
    && (r.ignoreCreationErrors || !AnyFailed(Creations(r, w, desired), w.create))
  }

  predicate BadZone(r: Request, w: World) {
    w.poolZoneCode != 0 || (w.poolZone != "" && w.poolZone != r.zone)
  }

  /** There is a reservation for each of "n" new pools. */
  predicate CanServe(r: Request, s: Snapshot, n: nat)
    requires r.vmsPerPool > 0 && r.chipsPerVm > 0
  {
    || !r.capacity.Reserved? || n == 0
    || (if r.validateReservations then
          var (caps, code) := Assess(s, r.reservations, r.superSlicing, r.vmsPerPool, r.chipsPerVm);
          code <= 0 && n <= Total(caps)
        else |r.reservations| == 1 || |r.reservations| == n)
  }

  class Cluster {
    var pools: set<string>

    constructor (pools: set<string>)
      ensures this.pools == pools
    {
      this.pools := pools;
    }

    /** Delete the named pools; as in run_commands, only positive codes count as failures. */
    method DeletePools(names: seq<string>, answer: string -> Answer) returns (failed: bool)
      modifies this
      ensures pools == old(pools) - Done(names, answer)
      ensures failed <==> AnyFailed(names, answer)
    {
      failed := false;
      for i := 0 to |names|
        invariant pools == old(pools) - Done(names[..i], answer)
        invariant failed <==> AnyFailed(names[..i], answer)
      {
        DoneStep(names, i, answer);
        if answer(names[i]).done {
          pools := pools - {names[i]};
        }
        failed := failed || answer(names[i]).code > 0;
      }
      assert names[..|names|] == names;
    }

    /** Create the named pools. */
    method CreatePools(names: seq<string>, answer: string -> Answer) returns (failed: bool)
      modifies this
      ensures pools == old(pools) + Done(names, answer)
      ensures failed <==> AnyFailed(names, answer)
    {
      failed := false;
      for i := 0 to |names|
        invariant pools == old(pools) + Done(names[..i], answer)
        invariant failed <==> AnyFailed(names[..i], answer)
      {
        DoneStep(names, i, answer);
        if answer(names[i]).done {
          pools := pools + {names[i]};
        }
        failed := failed || answer(names[i]).code > 0;
      }
      assert names[..|names|] == names;
    }

    /** The Workload Identity questions before anything is deleted: which kept pools need an update.
        None if a query fails. */
    method PoolsToUpdate(r: Request, w: World, toDelete: seq<string>) returns (names: Option<seq<string>>)
      ensures names.None? <==> QueryFails(r, w, toDelete)
      ensures names.Some? ==> forall x :: x in names.value <==> NeedsUpdate(r, w, toDelete, x)
    {
      var found := [];
      if r.workloadIdentity {
        for i := 0 to |w.listing|
          invariant forall k | 0 <= k < i :: w.listing[k] in toDelete || w.metadataMode(w.listing[k]).0 == 0
          invariant forall x :: x in found <==> x in w.listing[..i] && NeedsUpdate(r, w, toDelete, x)
        {
          if w.listing[i] !in toDelete {
            var (code, mode) := w.metadataMode(w.listing[i]);
            if code != 0 {
              return None;
            }
            if w.poolZone != "" && mode != "GKE_METADATA" {
              found := found + [w.listing[i]];
            }
          }
        }
      }
      return Some(found);
    }

    /** The part of run_gke_node_pool_create_command after the deletions: Workload Identity updates, the
        placement policy, and the creations. */
    method UpdateAndCreate(r: Request, w: World, desired: seq<string>, remain: seq<string>, toUpdate: seq<string>)
      returns (outcome: Outcome, updated: seq<string>, created: seq<string>, targets: seq<Option<Link>>)
      requires r.vmsPerPool > 0 && r.chipsPerVm > 0 && (r.capacity.Reserved? ==> r.reservations != [])
      modifies this
      ensures pools == old(pools) + Done(created, w.create)
      ensures LateStages(r, w, outcome, updated, created, targets, Missing(desired, remain), remain, toUpdate)
    {
      hide Served; hide Missing; hide CanServe; hide AnyUpdateFailed;
      updated, created, targets := [], [], [];
      NoUpdateFails(w);
      if toUpdate != [] {
        if w.consentUpdate {
          updated := toUpdate;
          if AnyUpdateFailed(toUpdate, w) {
            return Returned(1), updated, [], [];
          }
        }
        if remain == [] && w.configMapCode != 0 {
          return Returned(1), updated, [], [];
        }
      }
      if r.usesPlacement && !w.placementReady {
        return Raised, updated, [], [];
      }
      var toCreate := Missing(desired, remain);
      var code, picked := PickReservations(r, w.snapshot, |toCreate|);
      if code != 0 {
        return Returned(code), updated, [], [];
      }
      if toCreate != [] && r.capacity.Unknown? {
        return Returned(1), updated, [], [];
      }
      created := toCreate + (if r.pathways && CPU_POOL !in w.listing then [CPU_POOL] else []);
      targets := picked;
      var failed := CreatePools(created, w.create);
      outcome := Returned(if failed && !r.ignoreCreationErrors then 1 else 0);
    }

    /** The checks and plans for the pools that are present; "stop" ends the run with code 1. */
    method PlanDeletions(r: Request, w: World, desired: seq<string>)
      returns (stop: bool, toDelete: seq<string>, toUpdate: seq<string>)
      ensures stop <==> Stops(r, w, desired)
      ensures !stop ==> toDelete == Deletions(r, w, desired)
      ensures !stop ==> forall x :: x in toUpdate <==> NeedsUpdate(r, w, toDelete, x)
    {
      if w.listing == [] {
        return false, [], [];
      }
      if w.poolZoneCode != 0 {
        return true, [], [];
      }
      if w.poolZone != "" && w.poolZone != r.zone {
        return true, [], [];
      }
      toDelete := GetNodePoolsToDelete(w.listing, r.cluster, desired, w.check, w.requested);
      var updates := PoolsToUpdate(r, w, toDelete);
      if updates.None? {
        return true, [], [];
      }
      return false, toDelete, updates.value;
    }

    /** run_gke_node_pool_create_command.  The listing is truthful: it names each pool once. */
    method Reconcile(r: Request, w: World) returns (outcome: Outcome, run: Run)
      requires r.vmsPerPool > 0 && r.chipsPerVm > 0 && (r.capacity.Reserved? ==> r.reservations != [])
      requires w.listingCode >= 0 && (w.listingCode == 0 ==> Distinct(w.listing) && Members(w.listing) == pools)
      modifies this
      ensures Promised(r, w, outcome, run, old(pools), pools)
    {
      hide *;
      run := Run([], [], [], [], []);
      if w.listingCode > 0 {
        EndsAtOnce(r, w, Returned(w.listingCode), run, pools);
        return Returned(w.listingCode), run;
      }
      if w.capacityCode > 0 {
        EndsAtOnce(r, w, Returned(w.capacityCode), run, pools);
        return Returned(w.capacityCode), run;
      }
      var existing := w.listing;
      var desired := GetDesiredNodePoolNames(existing, r.cluster, DesiredCount(r));
      run := run.(desired := desired);
      var stop, toDelete, toUpdate := PlanDeletions(r, w, desired);
      if stop {
        EndsBeforeDeletions(r, w, run, pools);
        return Returned(1), run;
      }
      var remain := Remaining(existing, r.cluster, toDelete);
      if toDelete != [] {
        if !w.consentDelete {
          EndsBeforeDeletions(r, w, run, pools);
          return Returned(1), run;
        }
        run := run.(deleted := toDelete);
        var failed := DeletePools(toDelete, w.delete);
        if failed {
          EndsInDeletions(r, w, run, old(pools), pools);
          return Returned(1), run;
        }
      } else {
        NothingDone(w);
      }
      ghost var between := pools;
      var updated, created, targets;
      outcome, updated, created, targets := UpdateAndCreate(r, w, desired, remain, toUpdate);
      run := run.(updated := updated, created := created, targets := targets);
      EndsAfterDeletions(r, w, outcome, run, toUpdate, old(pools), between, pools);
    }
  }

  /** What a whole run promises, from its stages to the pools it leaves. */
  ghost predicate Promised(r: Request, w: World, outcome: Outcome, run: Run, before: set<string>, after: set<string>)
    requires r.vmsPerPool > 0 && r.chipsPerVm > 0
  {
    // nothing changes but by the issued commands
    && after == before - Done(run.deleted, w.delete) + Done(run.created, w.create)
    // which commands are issued, and how the run ends
    && Proceeds(r, w, outcome, run)
    // so the commands follow the plan, and a run that returns 0 issues all of them
    && FollowsPlan(r, w, run, outcome == Returned(0))
    // a run that meets no fault returns 0
    && (NoFaults(r, w, run.desired) ==> outcome == Returned(0))
    // against truthful answers, success means convergence
    && (outcome == Returned(0) && TruthfulCodes(w) && !AnyFailed(run.created, w.create) ==>
          Converged(before, after, r, run.desired))
    && (NoFaults(r, w, run.desired) && TruthfulCodes(w) && !r.ignoreCreationErrors ==>
          Converged(before, after, r, run.desired))
    // and the run can stand in the sequences below
    && (outcome == Returned(0) && DesiredCount(r) >= 0 ==> Complete(Turn(r, w, run), before, after))
  }

  lemma NoUpdateFails(w: World)
    ensures !AnyUpdateFailed([], w)
  {
  }

  /** The desired names: one pool for a GPU system, otherwise one for each slice. */
  ghost predicate WantsPools(r: Request, w: World, desired: seq<string>) {
    if r.isGpu then exists used: nat :: IsDesired(desired, w.listing, r.cluster, 1, used)
    else exists used: nat :: IsDesired(desired, w.listing, r.cluster, r.numSlices, used)
  }

  /** The stages of a run, each with what is issued and how the run ends there. */
  ghost predicate Proceeds(r: Request, w: World, outcome: Outcome, run: Run)
    requires r.vmsPerPool > 0 && r.chipsPerVm > 0
  {
    var toDelete := Deletions(r, w, run.desired);
    var missing := Missing(run.desired, Remaining(w.listing, r.cluster, toDelete));
    // a failing listing, a wrong capacity request
    && (w.listingCode > 0 ==> outcome == Returned(w.listingCode) && IssuesNothing(run))
    && (w.listingCode == 0 && w.capacityCode > 0 ==> outcome == Returned(w.capacityCode) && IssuesNothing(run))
    && (w.listingCode == 0 && w.capacityCode <= 0 ==>
          && WantsPools(r, w, run.desired)
          // another zone, a failing zone query or a failing query about a kept pool
          && (w.listing != [] && w.poolZoneCode != 0 ==> outcome == Returned(1) && IssuesNothing(run))
          && (w.listing != [] && w.poolZone != "" && w.poolZone != r.zone ==> outcome == Returned(1) && IssuesNothing(run))
          && (w.listing != [] && QueryFails(r, w, toDelete) ==> outcome == Returned(1) && IssuesNothing(run))
          && (!Stops(r, w, run.desired) ==>
                // a refused deletion, and a failing one
                && (toDelete != [] && !w.consentDelete ==> outcome == Returned(1) && IssuesNothing(run))
                && (toDelete == [] || w.consentDelete ==> run.deleted == toDelete)
                && (AnyFailed(run.deleted, w.delete) ==> outcome == Returned(1) && run.updated == run.created == [])))
    && (DeletionsPass(r, w, run.desired) ==>
          // the updates are agreed to or not issued
          && (!w.consentUpdate ==> run.updated == [])
          && (w.consentUpdate ==> forall x :: x in run.updated <==> NeedsUpdate(r, w, toDelete, x))
          && (AnyUpdateFailed(run.updated, w) ==> outcome == Returned(1) && run.created == [])
          && (UpdatesEnd(r, w, run.desired) ==> outcome == Returned(1) && run.created == [])
          && (!UpdatesEnd(r, w, run.desired) ==>
                if r.usesPlacement && !w.placementReady then outcome == Raised && run.created == []
                else if !CanServe(r, w.snapshot, |missing|) || (missing != [] && r.capacity.Unknown?) then
                  outcome != Returned(0) && run.created == []
                else
                  && run.created == Creations(r, w, run.desired) && TargetsFit(r, w.snapshot, run.targets, |missing|)
                  && outcome == Returned(if AnyFailed(run.created, w.create) && !r.ignoreCreationErrors then 1 else 0)))
  }

  ghost predicate IssuesNothing(run: Run) {
    run.deleted == [] && run.updated == [] && run.created == []
  }

  lemma NothingDone(w: World)
    ensures Done([], w.delete) == {} && Done([], w.create) == {} && !AnyFailed([], w.delete) && !AnyFailed([], w.create)
  {
  }

  lemma CountIsDesired(r: Request, w: World, desired: seq<string>)
    requires exists used: nat :: IsDesired(desired, w.listing, r.cluster, DesiredCount(r), used)
    ensures WantsPools(r, w, desired)
  {
    hide IsDesired;
  }

  /** The listing or the capacity request fails. */
  lemma EndsAtOnce(r: Request, w: World, outcome: Outcome, run: Run, pools: set<string>)
    requires r.vmsPerPool > 0 && r.chipsPerVm > 0 && run == Run([], [], [], [], [])
    requires w.listingCode >= 0
    requires if w.listingCode > 0 then outcome == Returned(w.listingCode)
             else w.capacityCode > 0 && outcome == Returned(w.capacityCode)
    ensures Promised(r, w, outcome, run, pools, pools)
  {
    hide IsDesired; hide Deletions; hide Creations; hide QueryFails; hide CanServe; hide Complete; hide Converged;
    NothingDone(w);
  }

  /** The pools that are present end the run, or a deletion is refused. */
  lemma EndsBeforeDeletions(r: Request, w: World, run: Run, pools: set<string>)
    requires r.vmsPerPool > 0 && r.chipsPerVm > 0 && run.deleted == run.updated == run.created == []
    requires w.listingCode == 0 && w.capacityCode <= 0
    requires exists used: nat :: IsDesired(run.desired, w.listing, r.cluster, DesiredCount(r), used)
    requires Stops(r, w, run.desired) || (Deletions(r, w, run.desired) != [] && !w.consentDelete)
    ensures Promised(r, w, Returned(1), run, pools, pools)
  {
    CountIsDesired(r, w, run.desired);
    hide IsDesired; hide Deletions; hide Creations; hide QueryFails; hide CanServe; hide Complete; hide Converged;
    NothingDone(w);
  }

  /** A deletion fails. */
  lemma EndsInDeletions(r: Request, w: World, run: Run, before: set<string>, after: set<string>)
    requires r.vmsPerPool > 0 && r.chipsPerVm > 0 && run.updated == run.created == []
    requires w.listingCode == 0 && w.capacityCode <= 0 && !Stops(r, w, run.desired)
    requires exists used: nat :: IsDesired(run.desired, w.listing, r.cluster, DesiredCount(r), used)
    requires run.deleted == Deletions(r, w, run.desired) && w.consentDelete && AnyFailed(run.deleted, w.delete)
    requires after == before - Done(run.deleted, w.delete)
    ensures Promised(r, w, Returned(1), run, before, after)
  {
    CountIsDesired(r, w, run.desired);
    hide IsDesired; hide Deletions; hide Creations; hide QueryFails; hide CanServe; hide Complete; hide Converged;
    NothingDone(w);
    assert run.deleted != [];
  }

  /** The run comes to its updates and creations. */
  lemma EndsAfterDeletions(r: Request, w: World, outcome: Outcome, run: Run, toUpdate: seq<string>,
                           before: set<string>, between: set<string>, after: set<string>)
    requires r.vmsPerPool > 0 && r.chipsPerVm > 0
    requires Distinct(w.listing) && Members(w.listing) == before
    requires w.listingCode == 0 && w.capacityCode <= 0 && !Stops(r, w, run.desired)
    requires exists used: nat :: IsDesired(run.desired, w.listing, r.cluster, DesiredCount(r), used)
    requires run.deleted == Deletions(r, w, run.desired) && (run.deleted != [] ==> w.consentDelete)
    requires !AnyFailed(run.deleted, w.delete) && between == before - Done(run.deleted, w.delete)
    requires after == between + Done(run.created, w.create)
    requires var remain := Remaining(w.listing, r.cluster, run.deleted);
      LateStages(r, w, outcome, run.updated, run.created, run.targets, Missing(run.desired, remain), remain, toUpdate)
    requires forall x :: x in toUpdate <==> NeedsUpdate(r, w, run.deleted, x)
    ensures Promised(r, w, outcome, run, before, after)
  {
    hide IsDesired; hide Deletions; hide Creations; hide QueryFails; hide CanServe; hide Complete; hide Converged;
    hide Served; hide TruthfulCodes;
    UpdatesEndIf(r, w, run.desired, toUpdate);
    LateEnd(r, w, outcome, run, toUpdate);
    if outcome == Returned(0) {
      SuccessIsComplete(r, w, run, before, after);
      if TruthfulCodes(w) && !AnyFailed(run.created, w.create) {
        SuccessConverges(r, w, run, before, after);
      }
    }
  }

  lemma LateEnd(r: Request, w: World, outcome: Outcome, run: Run, toUpdate: seq<string>)
    requires r.vmsPerPool > 0 && r.chipsPerVm > 0
    requires DeletionsPass(r, w, run.desired) && !Stops(r, w, run.desired)
    requires exists used: nat :: IsDesired(run.desired, w.listing, r.cluster, DesiredCount(r), used)
    requires run.deleted == Deletions(r, w, run.desired) && (run.deleted != [] ==> w.consentDelete)
    requires !AnyFailed(run.deleted, w.delete)
    requires var remain := Remaining(w.listing, r.cluster, run.deleted);
      LateStages(r, w, outcome, run.updated, run.created, run.targets, Missing(run.desired, remain), remain, toUpdate)
    requires forall x :: x in toUpdate <==> NeedsUpdate(r, w, run.deleted, x)
    requires UpdatesEnd(r, w, run.desired) <==>
      AnyUpdateFailed(run.updated, w)
      || (toUpdate != [] && Remaining(w.listing, r.cluster, Deletions(r, w, run.desired)) == [] && w.configMapCode != 0)
    ensures Proceeds(r, w, outcome, run) && FollowsPlan(r, w, run, outcome == Returned(0))
    ensures NoFaults(r, w, run.desired) ==> outcome == Returned(0)
    ensures outcome == Returned(0) && !r.ignoreCreationErrors ==> !AnyFailed(run.created, w.create)
  {
    CountIsDesired(r, w, run.desired);
    hide IsDesired; hide Deletions; hide Creations; hide QueryFails; hide CanServe; hide Served; hide NeedsUpdate;
    hide Remaining; hide Missing; hide TargetsFit;
    CreationsAre(r, w, run.desired);
  }

  lemma UpdatesEndIf(r: Request, w: World, desired: seq<string>, toUpdate: seq<string>)
    requires forall x :: x in toUpdate <==> NeedsUpdate(r, w, Deletions(r, w, desired), x)
    ensures var remain := Remaining(w.listing, r.cluster, Deletions(r, w, desired));
      UpdatesEnd(r, w, desired) <==>
        AnyUpdateFailed(if w.consentUpdate then toUpdate else [], w) || (toUpdate != [] && remain == [] && w.configMapCode != 0)
  {
    hide NeedsUpdate; hide Deletions; hide Remaining;
    if toUpdate != [] {
      assert toUpdate[0] in toUpdate;
    }
  }

  /** The slots of the first "n" pools, one next() for each.  The iterator would raise StopIteration when
      it runs dry: that never happens. */
  method PickSlots(it: SlotIterator, n: nat) returns (targets: seq<Option<Link>>)
    requires it.Valid() && n <= |it.Rest()|
    modifies it
    ensures |targets| == n && forall i | 0 <= i < n :: targets[i] == Some(old(it.Rest())[i])
  {
    ghost var slots := it.Rest();
    targets := [];
    while |targets| < n
      invariant it.Valid() && |targets| <= n && it.Rest() == slots[|targets|..]
      invariant forall i | 0 <= i < |targets| :: targets[i] == Some(slots[i])
      decreases n - |targets|
    {
      var link := it.Next();
      targets := targets + [link];
    }
  }

  /** cycle(reservations) for one reservation, iter(reservations) for more. */
  function FromList(reservations: seq<Link>, n: nat): (r: seq<Option<Link>>)
    requires |reservations| == 1 || |reservations| == n
    ensures |r| == n
  {
    seq(n, i requires 0 <= i < n => Some(if |reservations| == 1 then reservations[0] else reservations[i]))
  }

  /** The reservation for each of "n" new pools; None without reservations. */
  method PickReservations(r: Request, s: Snapshot, n: nat) returns (code: int, targets: seq<Option<Link>>)
    requires r.vmsPerPool > 0 && r.chipsPerVm > 0
    requires r.capacity.Reserved? ==> r.reservations != []
    ensures code == 0 <==> CanServe(r, s, n)
    ensures code == 0 ==> |targets| == n
    ensures code == 0 && !r.capacity.Reserved? ==> forall t | t in targets :: t == None
    ensures code == 0 && r.capacity.Reserved? && n > 0 ==> Served(r, s, targets)
  {
    hide Assess; hide Expand; hide Total;
    if !r.capacity.Reserved? || n == 0 {
      return 0, seq(n, i => None);
    }
    if r.validateReservations {
      var it, rc := PrepareReservationIterator(s, r.reservations, n, r.superSlicing, r.vmsPerPool, r.chipsPerVm);
      if it == null {
        return rc, [];
      }
      SlotsMatchTotal(s, r.reservations, r.superSlicing, r.vmsPerPool, r.chipsPerVm);
      targets := PickSlots(it, n);
      code := 0;
    } else {
      if |r.reservations| > 1 && |r.reservations| != n {
        return 1, [];
      }
      return 0, FromList(r.reservations, n);
    }
  }

  /** Every new pool has its reservation: the first slots of the assessment, or the given list. */
  ghost predicate Served(r: Request, s: Snapshot, targets: seq<Option<Link>>)
    requires r.vmsPerPool > 0 && r.chipsPerVm > 0
  {
    if r.validateReservations then
      var slots := Expand(Assess(s, r.reservations, r.superSlicing, r.vmsPerPool, r.chipsPerVm).0);
      |targets| <= |slots| && forall i | 0 <= i < |targets| :: targets[i] == Some(slots[i])
    else
      // the only one for all pools, or the i-th one for the i-th pool
      (|r.reservations| == 1 || |r.reservations| == |targets|)
      && forall i | 0 <= i < |targets| ::
           targets[i] == Some(if |r.reservations| == 1 then r.reservations[0] else r.reservations[i])
  }

  /** The reservations that one run gives to its new pools never ask more of a sub-block than is free in it. */
  lemma RunNeverOversubscribes(r: Request, s: Snapshot, targets: seq<Option<Link>>, block: Link, i: nat)
    requires r.vmsPerPool > 0 && r.chipsPerVm > 0 && r.validateReservations && Consistent(s)
    requires Served(r, s, targets)
    requires !block.Reservation? && i < |s.healthy(block).0|
    ensures var row := s.healthy(block).0[i];
      var t := SubBlock(block.project, block.name, block.zone, block.blockName, row.name);
      multiset(targets)[Some(t)] * r.vmsPerPool <= if row.count > row.inUse then row.count - row.inUse else 0
  {
    hide Assess; hide Expand; hide Total; hide Consistent;
    var slots := Expand(Assess(s, r.reservations, r.superSlicing, r.vmsPerPool, r.chipsPerVm).0);
    var row := s.healthy(block).0[i];
    SlotsMatchTotal(s, r.reservations, r.superSlicing, r.vmsPerPool, r.chipsPerVm);
    NoOversubscription(s, r.reservations, r.superSlicing, r.vmsPerPool, r.chipsPerVm, |targets|, block, i);
    SameCounts(slots[..|targets|], targets, SubBlock(block.project, block.name, block.zone, block.blockName, row.name));
  }

  /** The same for the reservations themselves without forced targeting: machines of a specific reservation,
      chips of an aggregate one. */
  lemma RunNeverOversubscribesPlain(r: Request, s: Snapshot, targets: seq<Option<Link>>, t: Link, h: Holding)
    requires r.vmsPerPool > 0 && r.chipsPerVm > 0 && r.validateReservations && !r.superSlicing
    requires Served(r, s, targets) && t.Reservation? && s.holding(t) == Some(h)
    ensures WithinFree(h, r.vmsPerPool, r.chipsPerVm, multiset(targets)[Some(t)])
  {
    hide Assess; hide Expand; hide Total; hide WithinFree;
    var slots := Expand(Assess(s, r.reservations, false, r.vmsPerPool, r.chipsPerVm).0);
    SlotsMatchTotal(s, r.reservations, false, r.vmsPerPool, r.chipsPerVm);
    NoPlainOversubscription(s, r.reservations, r.vmsPerPool, r.chipsPerVm, |targets|, t, h);
    SameCounts(slots[..|targets|], targets, t);
  }

  lemma {:induction false} SameCounts(links: seq<Link>, targets: seq<Option<Link>>, t: Link)
    requires |links| == |targets| && forall i | 0 <= i < |links| :: targets[i] == Some(links[i])
    ensures multiset(targets)[Some(t)] == multiset(links)[t]
  {
    if links != [] {
      var n := |links| - 1;
      SameCounts(links[..n], targets[..n], t);
      assert links == links[..n] + [links[n]] && targets == targets[..n] + [targets[n]];
    }
  }

  /** The named pools whose command took effect. */
  ghost function Done(names: seq<string>, answer: string -> Answer): set<string> {
    set x | x in names && answer(x).done
  }

  predicate AnyFailed(names: seq<string>, answer: string -> Answer) {
    exists i | 0 <= i < |names| :: answer(names[i]).code > 0
  }

  lemma DoneStep(names: seq<string>, i: nat, answer: string -> Answer)
    requires i < |names|
    ensures Done(names[..i + 1], answer) == Done(names[..i], answer) + (if answer(names[i]).done then {names[i]} else {})
    ensures AnyFailed(names[..i + 1], answer) <==> AnyFailed(names[..i], answer) || answer(names[i]).code > 0
  {
    assert names[..i + 1] == names[..i] + [names[i]];
    if AnyFailed(names[..i], answer) {
      var k :| 0 <= k < i && answer(names[..i][k]).code > 0;
      assert names[..i + 1][k] == names[..i][k];
    }
    assert names[..i + 1][i] == names[i];
  }

  // ----- convergence -----

  lemma DesiredAreManaged(desired: seq<string>, existing: seq<string>, cluster: string, count: int, used: nat)
    requires IsDesired(desired, existing, cluster, count, used)
    ensures forall x | x in desired :: IsManaged(cluster, x)
  {
    hide IsManaged; hide PoolName;
    ManagedMembers(existing, cluster);
    forall x | x in desired ensures IsManaged(cluster, x) {
      if x in Take(Managed(existing, cluster), count) {
        assert x in Managed(existing, cluster);
      }
    }
  }

  /** The pools of the plan, one by one. */
  lemma PlanMembers(r: Request, w: World, desired: seq<string>)
    ensures forall x :: x in Deletions(r, w, desired) <==> x in w.listing && MustGo(x, r.cluster, desired, w.check, w.requested)
    ensures forall x :: x in Creations(r, w, desired) <==>
      || (x in desired && !(x in w.listing && (IsManaged(r.cluster, x) || x in LEGACY_POOLS)
                            && !MustGo(x, r.cluster, desired, w.check, w.requested)))
      || (r.pathways && x == CPU_POOL && x !in w.listing)
  {
    hide IsManaged; hide MustGo; hide LEGACY_POOLS; hide CPU_POOL;
    ToDeleteMembers(w.listing, r.cluster, desired, w.check, w.requested);
    RemainingMembers(w.listing, r.cluster, Deletions(r, w, desired));
    MissingMembers(desired, Remaining(w.listing, r.cluster, Deletions(r, w, desired)));
  }

  /** Convergence: if a complete run had all its commands done, then the managed pools are exactly the
      desired ones, the legacy pools are gone, and all other pools are as before, but for the CPU pool.
      No created pool was present any more when the creations began. */
  lemma Convergence(r: Request, w: World, run: Run, used: nat, before: set<string>, after: set<string>)
    requires Members(w.listing) == before
    requires IsDesired(run.desired, w.listing, r.cluster, DesiredCount(r), used)
    requires run.deleted == Deletions(r, w, run.desired) && run.created == Creations(r, w, run.desired)
    requires AllDone(run, w) && after == before - Done(run.deleted, w.delete) + Done(run.created, w.create)
    ensures Converged(before, after, r, run.desired)
    ensures Members(run.created) !! (before - Done(run.deleted, w.delete))
  {
    hide IsManaged; hide IsDesired; hide LEGACY_POOLS; hide CPU_POOL; hide Deletions; hide Creations;
    PlanMembers(r, w, run.desired);
    DesiredAreManaged(run.desired, w.listing, r.cluster, DesiredCount(r), used);
    PathwaysNotManaged(r.cluster);
    assert forall x :: x in w.listing <==> x in before;
    assert forall x :: x in after <==> (x in before && x !in run.deleted) || x in run.created;
  }

  /** A command that returns no positive code took effect. */
  ghost predicate TruthfulCodes(w: World) {
    forall x :: (w.delete(x).code <= 0 ==> w.delete(x).done) && (w.create(x).code <= 0 ==> w.create(x).done)
  }

  /** A run that issued its whole plan without a failing command, against truthful answers, has converged. */
  lemma SuccessConverges(r: Request, w: World, run: Run, before: set<string>, after: set<string>)
    requires Members(w.listing) == before && TruthfulCodes(w) && FollowsPlan(r, w, run, true)
    requires !AnyFailed(run.deleted, w.delete) && !AnyFailed(run.created, w.create)
    requires after == before - Done(run.deleted, w.delete) + Done(run.created, w.create)
    ensures AllDone(run, w) && Converged(before, after, r, run.desired)
  {
    hide IsDesired; hide Converged; hide Deletions; hide Creations;
    forall x | x in run.deleted ensures w.delete(x).done {
      var i :| 0 <= i < |run.deleted| && run.deleted[i] == x;
    }
    forall x | x in run.created ensures w.create(x).done {
      var i :| 0 <= i < |run.created| && run.created[i] == x;
    }
    var used: nat :| IsDesired(run.desired, w.listing, r.cluster, DesiredCount(r), used);
    Convergence(r, w, run, used, before, after);
  }

  lemma SuccessIsComplete(r: Request, w: World, run: Run, before: set<string>, after: set<string>)
    requires Distinct(w.listing) && Members(w.listing) == before && FollowsPlan(r, w, run, true)
    requires after == before - Done(run.deleted, w.delete) + Done(run.created, w.create)
    ensures DesiredCount(r) >= 0 ==> Complete(Turn(r, w, run), before, after)
  {
    hide IsDesired; hide Deletions; hide Creations;
  }

  /** Whatever fails and wherever a run stops: pools of others are untouched, and a managed pool that is
      desired, and whose device type the cluster already has, is never deleted. */
  lemma RunsTouchNothingElse(r: Request, w: World, run: Run, complete: bool, before: set<string>, after: set<string>)
    requires FollowsPlan(r, w, run, complete)
    requires after == before - Done(run.deleted, w.delete) + Done(run.created, w.create)
    ensures forall x | Foreign(r.cluster, x) :: x in after <==> x in before
    ensures (w.check ==> w.requested) ==>
      forall x | x in before && IsManaged(r.cluster, x) && x in run.desired :: x in after
  {
    hide IsManaged; hide IsDesired; hide LEGACY_POOLS; hide CPU_POOL; hide Deletions; hide Creations;
    PlanMembers(r, w, run.desired);
    PathwaysNotManaged(r.cluster);
    if run.created != [] {
      var used: nat :| IsDesired(run.desired, w.listing, r.cluster, DesiredCount(r), used);
      DesiredAreManaged(run.desired, w.listing, r.cluster, DesiredCount(r), used);
    }
    assert forall x | x in LEGACY_POOLS :: !IsManaged(r.cluster, x);
  }

  // ----- churn over sequences of runs -----

  ghost function ManagedSet(pools: set<string>, cluster: string): set<string> {
    set x | x in pools && IsManaged(cluster, x)
  }

  lemma ManagedSetIsManaged(listing: seq<string>, cluster: string)
    requires Distinct(listing)
    ensures ManagedSet(Members(listing), cluster) == Members(Managed(listing, cluster))
    ensures |ManagedSet(Members(listing), cluster)| == |Managed(listing, cluster)|
  {
    hide IsManaged;
    ManagedMembers(listing, cluster);
    SetOfDistinct(Managed(listing, cluster));
    assert forall x :: x in ManagedSet(Members(listing), cluster) <==> x in Members(Managed(listing, cluster));
  }

  /** One run: what was asked for, what was answered, and which commands were issued. */
  datatype Turn = Turn(request: Request, world: World, run: Run)

  /** The managed pools among the deletions and the creations that a run issues. */
  ghost function DeletedBy(t: Turn): set<string> {
    ManagedSet(Members(t.run.deleted), t.request.cluster)
  }

  ghost function CreatedBy(t: Turn): set<string> {
    ManagedSet(Members(t.run.created), t.request.cluster)
  }

  /** The pools change by the issued commands that took effect, and in no other way. */
  ghost predicate ByCommands(t: Turn, before: set<string>, after: set<string>) {
    after == before - Done(t.run.deleted, t.world.delete) + Done(t.run.created, t.world.create)
  }

  /** A run for the device type that the cluster has. */
  predicate SameType(t: Turn) {
    t.world.check ==> t.world.requested
  }

  /** A run for a truthful listing that issued its whole plan. */
  ghost predicate Complete(t: Turn, before: set<string>, after: set<string>) {
    && Distinct(t.world.listing) && Members(t.world.listing) == before
    && DesiredCount(t.request) >= 0
    && (exists used: nat :: IsDesired(t.run.desired, t.world.listing, t.request.cluster, DesiredCount(t.request), used))
    && t.run.deleted == Deletions(t.request, t.world, t.run.desired)
    && t.run.created == Creations(t.request, t.world, t.run.desired)
    && ByCommands(t, before, after)
  }

  /** A complete run for the same device type, all of whose commands took effect. */
  ghost predicate FullRun(t: Turn, before: set<string>, after: set<string>) {
    SameType(t) && Complete(t, before, after) && AllDone(t.run, t.world)
  }

  ghost function Gap(a: nat, b: nat): nat {
    if a <= b then b - a else a - b
  }

  /** For the same device type the plan deletes exactly the managed pools that are not desired, and creates
      exactly the desired ones that are missing: together as many as the counts differ, and never both.  For
      another device type it deletes all managed pools and creates all desired ones. */
  lemma PlanChurn(t: Turn, before: set<string>, after: set<string>)
    requires Complete(t, before, after)
    ensures var old', wanted := ManagedSet(before, t.request.cluster), Members(t.run.desired);
      && |wanted| == DesiredCount(t.request)
      && if SameType(t) then
           && DeletedBy(t) == old' - wanted && CreatedBy(t) == wanted - old'
           && |DeletedBy(t)| + |CreatedBy(t)| == Gap(|old'|, DesiredCount(t.request))
           && (DeletedBy(t) == {} || CreatedBy(t) == {})
         else DeletedBy(t) == old' && CreatedBy(t) == wanted
  {
    hide IsManaged; hide IsDesired; hide LEGACY_POOLS; hide CPU_POOL; hide Deletions; hide Creations;
    var r, w, desired := t.request, t.world, t.run.desired;
    var used: nat :| IsDesired(desired, w.listing, r.cluster, DesiredCount(r), used);
    PlanMembers(r, w, desired);
    DesiredAreManaged(desired, w.listing, r.cluster, DesiredCount(r), used);
    PathwaysNotManaged(r.cluster);
    MinimalChurn(w.listing, r.cluster, DesiredCount(r), desired, used);
    ManagedSetIsManaged(w.listing, r.cluster);
    assert forall x :: x in w.listing <==> x in before;
    if SameType(t) {
      assert DeletedBy(t) == ManagedSet(before, r.cluster) - Members(desired);
      assert CreatedBy(t) == Members(desired) - ManagedSet(before, r.cluster);
    } else {
      assert DeletedBy(t) == ManagedSet(before, r.cluster);
      assert CreatedBy(t) == Members(desired);
    }
  }

  /** No pool is named twice among the issued commands. */
  lemma PlanNamesOnce(t: Turn, before: set<string>, after: set<string>)
    requires Complete(t, before, after)
    ensures Distinct(t.run.deleted) && Distinct(t.run.created)
  {
    hide IsManaged; hide IsDesired; hide LEGACY_POOLS; hide CPU_POOL; hide MustGo;
    var r, w, desired := t.request, t.world, t.run.desired;
    var used: nat :| IsDesired(desired, w.listing, r.cluster, DesiredCount(r), used);
    DesiredNames(w.listing, r.cluster, DesiredCount(r), desired, used);
    PathwaysNotManaged(r.cluster);
    ToDeleteDistinct(w.listing, r.cluster, desired, w.check, w.requested);
    var remain := Remaining(w.listing, r.cluster, Deletions(r, w, desired));
    MissingDistinct(desired, remain);
    MissingMembers(desired, remain);
    var missing := Missing(desired, remain);
    assert forall i | 0 <= i < |missing| :: missing[i] in missing;
  }

  lemma {:induction false} ToDeleteDistinct(existing: seq<string>, cluster: string, desired: seq<string>, check: bool, requested: bool)
    requires Distinct(existing)
    ensures Distinct(ToDelete(existing, cluster, desired, check, requested))
  {
    hide MustGo;
    if existing != [] {
      var rest := ToDelete(existing[1..], cluster, desired, check, requested);
      ToDeleteDistinct(existing[1..], cluster, desired, check, requested);
      ToDeleteMembers(existing[1..], cluster, desired, check, requested);
      assert existing[0] !in existing[1..];
      assert forall i | 0 <= i < |rest| :: rest[i] in rest;
    }
  }

  lemma {:induction false} MissingDistinct(desired: seq<string>, remain: seq<string>)
    requires Distinct(desired)
    ensures Distinct(Missing(desired, remain))
  {
    if desired != [] {
      var rest := Missing(desired[1..], remain);
      MissingDistinct(desired[1..], remain);
      MissingMembers(desired[1..], remain);
      assert desired[0] !in desired[1..];
      assert forall i | 0 <= i < |rest| :: rest[i] in rest;
    }
  }

  /** After a complete run whose deletions were done, the managed pools are the desired ones that were there
      and those whose creation took effect; all of them are desired. */
  lemma ManagedAfter(t: Turn, before: set<string>, after: set<string>)
    requires SameType(t) && Complete(t, before, after) && forall x | x in t.run.deleted :: t.world.delete(x).done
    ensures var old', wanted := ManagedSet(before, t.request.cluster), Members(t.run.desired);
      && ManagedSet(after, t.request.cluster)
         == old' * wanted + ManagedSet(Done(t.run.created, t.world.create), t.request.cluster)
      && ManagedSet(after, t.request.cluster) <= wanted
      && (AllDone(t.run, t.world) ==> ManagedSet(after, t.request.cluster) == wanted)
  {
    hide IsDesired; hide Deletions; hide Creations; hide ManagedSet; hide Gap;
    PlanChurn(t, before, after);
    var c := t.request.cluster;
    var created := Done(t.run.created, t.world.create);
    assert Done(t.run.deleted, t.world.delete) == Members(t.run.deleted);
    ManagedOfChange(before, Members(t.run.deleted), created, c);
    ManagedOfPart(created, Members(t.run.created), c);
    assert AllDone(t.run, t.world) ==> created == Members(t.run.created);
    hide Complete; hide AllDone; hide Done; hide Members;
    Exchange(ManagedSet(before, c), Members(t.run.desired), ManagedSet(created, c));
  }

  /** Giving up what is not wanted and adding some of what is missing. */
  lemma Exchange(present: set<string>, wanted: set<string>, added: set<string>)
    requires added <= wanted - present
    ensures var final := present - (present - wanted) + added;
      final == present * wanted + added && final <= wanted && (added == wanted - present ==> final == wanted)
  {
  }

  lemma ManagedOfChange(pools: set<string>, gone: set<string>, added: set<string>, cluster: string)
    ensures ManagedSet(pools - gone + added, cluster)
         == ManagedSet(pools, cluster) - ManagedSet(gone, cluster) + ManagedSet(added, cluster)
  {
    hide IsManaged;
  }

  lemma ManagedOfPart(a: set<string>, b: set<string>, cluster: string)
    requires a <= b
    ensures ManagedSet(a, cluster) <= ManagedSet(b, cluster)
  {
    hide IsManaged;
  }

  /** One full run: it ends with the wanted number of managed pools, having deleted or created exactly as
      many as the counts differ. */
  lemma FullRunChurn(t: Turn, before: set<string>, after: set<string>)
    requires FullRun(t, before, after)
    ensures var old', new' := ManagedSet(before, t.request.cluster), ManagedSet(after, t.request.cluster);
      && |new'| == DesiredCount(t.request)
      && new' == old' - DeletedBy(t) + CreatedBy(t)
      && |DeletedBy(t)| + |CreatedBy(t)| == Gap(|old'|, |new'|)
      && (DeletedBy(t) == {} || CreatedBy(t) == {})
  {
    hide ManagedSet; hide Complete; hide DeletedBy; hide CreatedBy; hide Gap;
    PlanChurn(t, before, after);
    ManagedAfter(t, before, after);
    hide AllDone; hide Members;
    var old', wanted := ManagedSet(before, t.request.cluster), Members(t.run.desired);
    Exchange(old', wanted, wanted - old');
  }

  /** The managed pools deleted or created by a whole sequence of runs. */
  ghost function Churn(turns: seq<Turn>): nat {
    if turns == [] then 0 else |DeletedBy(turns[0])| + |CreatedBy(turns[0])| + Churn(turns[1..])
  }

  ghost function Gaps(first: nat, counts: seq<nat>): nat
    decreases counts
  {
    if counts == [] then 0 else Gap(first, counts[0]) + Gaps(counts[0], counts[1..])
  }

  /** The counts that the runs of a sequence ask for. */
  ghost function Wanted(turns: seq<Turn>): seq<nat>
    requires forall i | 0 <= i < |turns| :: DesiredCount(turns[i].request) >= 0
  {
    seq(|turns|, i requires 0 <= i < |turns| => DesiredCount(turns[i].request))
  }

  ghost predicate FullRuns(cluster: string, turns: seq<Turn>, states: seq<set<string>>) {
    && |states| == |turns| + 1
    && forall i | 0 <= i < |turns| ::
         turns[i].request.cluster == cluster && DesiredCount(turns[i].request) >= 0
         && FullRun(turns[i], states[i], states[i + 1])
  }

  /** Any sequence of full runs of one device type, with any listing orders: the pools deleted and created in
      total are as many as successive counts differ. */
  lemma {:induction false} SequenceChurn(cluster: string, turns: seq<Turn>, states: seq<set<string>>)
    requires FullRuns(cluster, turns, states)
    ensures Churn(turns) == Gaps(|ManagedSet(states[0], cluster)|, Wanted(turns))
  {
    hide FullRun; hide ManagedSet; hide DeletedBy; hide CreatedBy; hide DesiredCount;
    if turns != [] {
      FullRunChurn(turns[0], states[0], states[0 + 1]);
      assert Wanted(turns)[1..] == Wanted(turns[1..]);
      forall i | 0 <= i < |turns[1..]|
        ensures turns[1..][i].request.cluster == cluster && DesiredCount(turns[1..][i].request) >= 0
          && FullRun(turns[1..][i], states[1..][i], states[1..][i + 1])
      {
        assert FullRun(turns[i + 1], states[i + 1], states[(i + 1) + 1]);
      }
      SequenceChurn(cluster, turns[1..], states[1..]);
      assert states[1..][0] == states[1];
    }
  }

  /** No other commands, planned in whatever way, reach the same numbers of managed pools with less churn. */
  lemma {:induction false} NoCheaperSequence(cluster: string, turns: seq<Turn>, states: seq<set<string>>, counts: seq<nat>)
    requires |states| == |turns| + 1 && |counts| == |turns|
    requires forall i | 0 <= i < |turns| :: ReachesCount(cluster, turns[i], states[i], states[i + 1], counts[i])
    ensures Churn(turns) >= Gaps(|ManagedSet(states[0], cluster)|, counts)
  {
    hide ReachesCount; hide ManagedSet; hide DeletedBy; hide CreatedBy;
    if turns != [] {
      assert ReachesCount(cluster, turns[0], states[0], states[0 + 1], counts[0]);
      CommandsCoverGap(cluster, turns[0], states[0], states[1], counts[0]);
      forall i | 0 <= i < |turns[1..]| ensures ReachesCount(cluster, turns[1..][i], states[1..][i], states[1..][i + 1], counts[1..][i]) {
        assert ReachesCount(cluster, turns[i + 1], states[i + 1], states[(i + 1) + 1], counts[i + 1]);
      }
      NoCheaperSequence(cluster, turns[1..], states[1..], counts[1..]);
      assert states[1..][0] == states[1];
    }
  }

  ghost predicate ReachesCount(cluster: string, t: Turn, before: set<string>, after: set<string>, count: nat) {
    t.request.cluster == cluster && ByCommands(t, before, after) && |ManagedSet(after, cluster)| == count
  }

  lemma CommandsCoverGap(cluster: string, t: Turn, before: set<string>, after: set<string>, count: nat)
    requires ReachesCount(cluster, t, before, after, count)
    ensures |DeletedBy(t)| + |CreatedBy(t)| >= Gap(|ManagedSet(before, cluster)|, count)
    ensures |ManagedSet(after, cluster)| == count
  {
    hide IsManaged;
    var old', new' := ManagedSet(before, cluster), ManagedSet(after, cluster);
    CoveredBy(new', old', CreatedBy(t));
    CoveredBy(old', new', DeletedBy(t));
  }

  lemma CoveredBy(a: set<string>, b: set<string>, c: set<string>)
    requires a <= b + c
    ensures |a| <= |b| + |c|
  {
    CardinalityOfSubset(a, b + c);
    assert b + c == b + (c - b);
    CardinalityOfSubset(c - b, c);
  }

  /** After a run in which only some creations succeeded, running again for the same count issues no deletion
      of a managed pool, and creates exactly the missing number. */
  lemma RetryAfterFailure(first: Turn, second: Turn, before: set<string>, between: set<string>, after: set<string>)
    requires SameType(first) && SameType(second)
    requires Complete(first, before, between) && (forall x | x in first.run.deleted :: first.world.delete(x).done)
    requires Complete(second, between, after) && second.request.cluster == first.request.cluster
    requires DesiredCount(second.request) == DesiredCount(first.request)
    ensures var present := ManagedSet(between, first.request.cluster);
      && DeletedBy(second) == {}
      && CreatedBy(second) !! present
      && |CreatedBy(second)| == DesiredCount(first.request) - |present|
  {
    hide IsManaged; hide IsDesired; hide ManagedSet; hide Deletions; hide Creations; hide DesiredCount;
    PlanChurn(first, before, between);
    ManagedAfter(first, before, between);
    PlanChurn(second, between, after);
    var present, wanted := ManagedSet(between, first.request.cluster), Members(second.run.desired);
    CardinalityOfSubset(present, Members(first.run.desired));
    NoneToDelete(present, wanted);
  }

  lemma NoneToDelete(present: set<string>, wanted: set<string>)
    requires |present| <= |wanted| && (present - wanted == {} || wanted - present == {})
    ensures present - wanted == {}
  {
    if wanted - present == {} {
      EmptyDifference(wanted, present);
      SubsetOfSameSize(wanted, present);
    }
  }

  lemma EmptyDifference(a: set<string>, b: set<string>)
    requires |a - b| == 0
    ensures a <= b
  {
    assert a == (a - b) + (a * b);
  }

  /** Idempotence: once a run has converged, running again for the same request and device type plans
      nothing, in whatever order the pools are listed. */
  lemma RepeatPlansNothing(r: Request, w: World, desired: seq<string>, used: nat, before: set<string>, after: set<string>,
                           w': World, desired': seq<string>, used': nat)
    requires Distinct(w.listing) && Members(w.listing) == before && DesiredCount(r) >= 0
    requires IsDesired(desired, w.listing, r.cluster, DesiredCount(r), used) && Converged(before, after, r, desired)
    requires Distinct(w'.listing) && Members(w'.listing) == after && (w'.check ==> w'.requested)
    requires IsDesired(desired', w'.listing, r.cluster, DesiredCount(r), used')
    ensures Deletions(r, w', desired') == [] && Creations(r, w', desired') == []
  {
    hide IsManaged; hide IsDesired; hide LEGACY_POOLS; hide CPU_POOL; hide Deletions; hide Creations; hide ManagedSet;
    var count: nat := DesiredCount(r);
    MinimalChurn(w.listing, r.cluster, count, desired, used);
    ConvergedIsDesired(r, w, desired, used, before, after);
    ManagedSetIsManaged(w'.listing, r.cluster);
    MinimalChurn(w'.listing, r.cluster, count, desired', used');
    var present := ManagedSet(after, r.cluster);
    EmptyDifference(present, Members(desired'));
    EmptyDifference(Members(desired'), present);
    NothingPlanned(r, w', desired', before, after, desired);
  }

  lemma ConvergedIsDesired(r: Request, w: World, desired: seq<string>, used: nat, before: set<string>, after: set<string>)
    requires IsDesired(desired, w.listing, r.cluster, DesiredCount(r), used) && Converged(before, after, r, desired)
    ensures ManagedSet(after, r.cluster) == Members(desired)
  {
    hide IsManaged; hide IsDesired; hide LEGACY_POOLS; hide CPU_POOL;
    DesiredAreManaged(desired, w.listing, r.cluster, DesiredCount(r), used);
    forall x ensures x in ManagedSet(after, r.cluster) <==> x in Members(desired) {
      assert x in after <==>
        if IsManaged(r.cluster, x) then x in desired
        else if x in LEGACY_POOLS then false
        else x in before || (r.pathways && x == CPU_POOL);
    }
  }

  lemma NothingPlanned(r: Request, w: World, desired: seq<string>, before: set<string>, after: set<string>, was: seq<string>)
    requires Members(w.listing) == after && (w.check ==> w.requested) && Converged(before, after, r, was)
    requires ManagedSet(after, r.cluster) == Members(desired)
    ensures Deletions(r, w, desired) == [] && Creations(r, w, desired) == []
  {
    hide IsManaged; hide LEGACY_POOLS; hide CPU_POOL; hide Deletions; hide Creations;
    PlanMembers(r, w, desired);
    PathwaysNotManaged(r.cluster);
    assert forall x :: x in desired <==> x in ManagedSet(after, r.cluster) by {
      assert forall x :: x in desired <==> x in Members(desired);
    }
    assert forall x :: x in w.listing <==> x in after;
    var d, c := Deletions(r, w, desired), Creations(r, w, desired);
    assert forall x :: x !in d;
    assert forall x :: x !in c;
    EmptyOrInhabited(d);
    EmptyOrInhabited(c);
  }
}
