/** What one hibernation step promises: the order of its gates, that nothing
    is deleted before both gates pass, how the deletion phase treats each
    outcome, and that a repeated step on an already hibernated snapshot
    completes again. */
module HibernateProperties {
  import opened ClusterHibernate

  /** An error from the stopped query is returned as it is, and nothing is deleted. */
  lemma StoppedCheckErrorIsReturned(stopped: StoppedCheck, instances: seq<Instance>, pvcs: seq<Pvc>,
                                    outcomes: seq<DeleteOutcome>)
    requires |outcomes| == |instances|
    requires stopped.CheckFailed?
    ensures Hibernate(stopped, instances, pvcs, outcomes) == Outcome(true, Some(stopped.err), [])
  {
  }

  /** While some instance still runs, the step waits without error and deletes nothing. */
  lemma NotStoppedWaits(instances: seq<Instance>, pvcs: seq<Pvc>, outcomes: seq<DeleteOutcome>)
    requires |outcomes| == |instances|
    ensures Hibernate(Answered(false), instances, pvcs, outcomes) == Outcome(true, None, [])
  {
  }

  /** A PVC without the status annotation never passes the gate. */
  lemma MissingStatusIsNotReady(pvc: Pvc)
    requires PvcStatusAnnotation !in pvc.annotations
    ensures !PvcReady(pvc)
  {
  }

  /** One unready PVC anywhere in the list makes the step wait without error
      and delete nothing. */
  lemma UnreadyPvcBlocksDeletion(instances: seq<Instance>, pvcs: seq<Pvc>, outcomes: seq<DeleteOutcome>,
                                 i: nat)
    requires |outcomes| == |instances|
    requires i < |pvcs| && !PvcReady(pvcs[i])
    ensures Hibernate(Answered(true), instances, pvcs, outcomes) == Outcome(true, None, [])
  {
  }

  /** With at least one instance pod, a delete is issued exactly when the
      instances are stopped and every PVC is ready; an empty PVC list passes. */
  lemma DeletionStartsIffGatesPass(stopped: StoppedCheck, instances: seq<Instance>, pvcs: seq<Pvc>,
                                   outcomes: seq<DeleteOutcome>)
    requires |outcomes| == |instances| && 0 < |instances|
    ensures Hibernate(stopped, instances, pvcs, outcomes).deleteCalls != []
        <==> stopped == Answered(true) && AllPvcsReady(pvcs)
  {
  }

  /** Once both gates pass, a delete that fails with another error than
      "not found" ends the step: the pods before it, and it, got one delete
      each, in order, none after it did, and the error comes back wrapped. */
  lemma FatalDeleteStopsTheStep(instances: seq<Instance>, pvcs: seq<Pvc>, outcomes: seq<DeleteOutcome>,
                                i: nat)
    requires |outcomes| == |instances| && AllPvcsReady(pvcs)
    requires i < |instances| && outcomes[i].Failed?
    requires forall j | 0 <= j < i :: !outcomes[j].Failed?
    ensures Hibernate(Answered(true), instances, pvcs, outcomes)
         == Outcome(true, Some(CannotKillPod(outcomes[i].err)), instances[..i + 1])
  {
  }

  /** Once both gates pass and no delete fails with another error than
      "not found", every instance pod gets one delete, in order, and the step
      is complete. */
  lemma ToleratedDeletesComplete(instances: seq<Instance>, pvcs: seq<Pvc>, outcomes: seq<DeleteOutcome>)
    requires |outcomes| == |instances| && AllPvcsReady(pvcs)
    requires forall j | 0 <= j < |outcomes| :: outcomes[j] == Deleted || outcomes[j] == NotFound
    ensures Hibernate(Answered(true), instances, pvcs, outcomes) == Outcome(false, None, instances)
  {
  }

  /** A step that completed on a snapshot completes again when it is run on
      the same snapshot a second time and every pod is already gone. */
  lemma RepeatedStepCompletes(stopped: StoppedCheck, instances: seq<Instance>, pvcs: seq<Pvc>,
                              outcomes: seq<DeleteOutcome>)
    requires |outcomes| == |instances|
    requires !Hibernate(stopped, instances, pvcs, outcomes).waitingForDeletion
    ensures Hibernate(stopped, instances, pvcs, outcomes).err == None
    ensures Hibernate(stopped, instances, pvcs, seq(|instances|, _ => NotFound))
         == Outcome(false, None, instances)
  {
  }

  /** A snapshot with two stopped instances whose second PVC is still pending. */
  lemma PendingPvcScenario()
    ensures
      var v1 := Pvc("pg1-1", map[PvcStatusAnnotation := PvcStatusDetached,
                                 HibernateManifestAnnotation := "{}",
                                 HibernatePgControlDataAnnotation := "{}"]);
      var v2 := Pvc("pg1-2", map[PvcStatusAnnotation := "pending"]);
      Hibernate(Answered(true), [Instance("pg1-1"), Instance("pg1-2")], [v1, v2], [Deleted, Deleted])
        == Outcome(true, None, [])
  {
    var v1 := Pvc("pg1-1", map[PvcStatusAnnotation := PvcStatusDetached,
                               HibernateManifestAnnotation := "{}",
                               HibernatePgControlDataAnnotation := "{}"]);
    var v2 := Pvc("pg1-2", map[PvcStatusAnnotation := "pending"]);
    assert !PvcReady([v1, v2][1]);
  }

  /** The same snapshot once both PVCs are ready: both pods get a delete, in order. */
  lemma ReadyPvcScenario()
    ensures
      var ready := map[PvcStatusAnnotation := PvcStatusDetached,
                       HibernateManifestAnnotation := "{}",
                       HibernatePgControlDataAnnotation := "{}"];
      Hibernate(Answered(true), [Instance("pg1-1"), Instance("pg1-2")],
                [Pvc("pg1-1", ready), Pvc("pg1-2", ready)], [Deleted, Deleted])
        == Outcome(false, None, [Instance("pg1-1"), Instance("pg1-2")])
  {
  }
}
