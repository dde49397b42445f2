/** The hibernation step of the cluster reconciler.
    One call looks at a snapshot of the cluster's instance pods and PVCs and
    passes three gates in order: every instance is stopped, every PVC carries
    the hibernation markers, and then every instance pod is deleted. The
    Kubernetes collaborators are inputs: the answer of the "all instances
    stopped" query, the PVC annotation maps, and one delete outcome per
    instance pod. The delete calls the step issues are returned as a trace. */
module ClusterHibernate {

  /** The annotation keys and the status value the PVC gate looks at. */
  const PvcStatusAnnotation: string := "cnpg.io/pvcStatus"
  const PvcStatusDetached: string := "detached"
  const HibernateManifestAnnotation: string := "cnpg.io/hibernateClusterManifest"
  const HibernatePgControlDataAnnotation: string := "cnpg.io/hibernatePgControlData"

  datatype Option<+T> = None | Some(value: T)

  /** An error value as the reconciler sees one. */
  datatype Error =
    | ApiError(reason: string)
      /** The error of a failed pod deletion, wrapped with the reconciler's context. */
    | CannotKillPod(cause: Error)

  datatype Instance = Instance(name: string)

  type Annotations = map<string, string>

  datatype Pvc = Pvc(name: string, annotations: Annotations)

  /** What the "are all instances stopped" query answered. */
  datatype StoppedCheck = Answered(areStopped: bool) | CheckFailed(err: Error)

  /** What deleting one instance pod answered: success, a "not found" error,
      or any other error. */
  datatype DeleteOutcome = Deleted | NotFound | Failed(err: Error)

  /** The result of one call, `(waitingForDeletion, err)`, together with the
      instance pods it issued a delete for, in call order. */
  datatype Outcome = Outcome(waitingForDeletion: bool, err: Option<Error>, deleteCalls: seq<Instance>)

  /** Whether a PVC is ready to outlive its pod: it has the pg_controldata
      annotation, the cluster manifest annotation, and the status annotation
      reads "detached". A missing status annotation reads as the empty string. */
  function PvcReady(pvc: Pvc): (ready: bool)
    ensures ready <==>
      && HibernatePgControlDataAnnotation in pvc.annotations
      && HibernateManifestAnnotation in pvc.annotations
      && PvcStatusAnnotation in pvc.annotations
      && pvc.annotations[PvcStatusAnnotation] == PvcStatusDetached
  {
    var status := if PvcStatusAnnotation in pvc.annotations then pvc.annotations[PvcStatusAnnotation] else "";
    var hasManifest := HibernateManifestAnnotation in pvc.annotations;
    var hasControlData := HibernatePgControlDataAnnotation in pvc.annotations;
    hasControlData && hasManifest && status == PvcStatusDetached
  }

  /** The PVC gate: walks the PVCs in order and fails at the first one that
      is not ready. */
  function AllPvcsReady(pvcs: seq<Pvc>): (ready: bool)
    ensures ready <==> forall i | 0 <= i < |pvcs| :: PvcReady(pvcs[i])
    ensures pvcs == [] ==> ready
  {
    if pvcs == [] then true
    else if !PvcReady(pvcs[0]) then false
    else AllPvcsReady(pvcs[1..])
  }

  /** The deletion phase: one delete per instance pod, in order; "not found"
      counts as done; the first other error stops the phase and is returned
      wrapped. */
  function DeleteAll(instances: seq<Instance>, outcomes: seq<DeleteOutcome>): (r: Outcome)
    requires |outcomes| == |instances|
    // deletes are issued in list order, at most one per instance pod
    ensures |r.deleteCalls| <= |instances| && r.deleteCalls == instances[..|r.deleteCalls|]
    // every delete before the last one was tolerated
    ensures forall j | 0 <= j < |r.deleteCalls| - 1 :: !outcomes[j].Failed?
    // the phase succeeds exactly when no delete fails with another error than "not found"
    ensures r.err == None <==> forall j | 0 <= j < |outcomes| :: !outcomes[j].Failed?
    ensures r.err == None ==> !r.waitingForDeletion && r.deleteCalls == instances
    ensures r.err != None ==>
      && r.waitingForDeletion
      && 0 < |r.deleteCalls|
      && outcomes[|r.deleteCalls| - 1].Failed?
      && r.err == Some(CannotKillPod(outcomes[|r.deleteCalls| - 1].err))
  {
    if instances == [] then
      Outcome(false, None, [])
    else
      match outcomes[0]
      case Failed(e) => Outcome(true, Some(CannotKillPod(e)), [instances[0]])
      case _ =>
        var rest := DeleteAll(instances[1..], outcomes[1..]);
        assert instances == [instances[0]] + instances[1..];
        rest.(deleteCalls := [instances[0]] + rest.deleteCalls)
  }

  /** The whole step, as a function of the snapshot and the collaborators' answers. */
  function Hibernate(stopped: StoppedCheck, instances: seq<Instance>, pvcs: seq<Pvc>,
                     outcomes: seq<DeleteOutcome>): (r: Outcome)
    requires |outcomes| == |instances|
    // no instance pod is deleted unless both gates passed on this call
    ensures r.deleteCalls != [] ==> stopped == Answered(true) && AllPvcsReady(pvcs)
    // only instance pods of the snapshot are ever deleted
    ensures forall c | c in r.deleteCalls :: c in instances
    // the step reports completion only when it has sent a delete to every instance pod
    ensures !r.waitingForDeletion ==> r.err == None && r.deleteCalls == instances
  {
    match stopped
    case CheckFailed(e) => Outcome(true, Some(e), [])
    case Answered(areStopped) =>
      if !areStopped then Outcome(true, None, [])
      else if !AllPvcsReady(pvcs) then Outcome(true, None, [])
      else DeleteAll(instances, outcomes)
  }

  /** The step as the reconciler runs it: the stopped check, the loop over the
      PVCs that returns at the first unready one, and the loop that deletes the
      instance pods and returns at the first fatal error. `outcomes[i]` is what
      the delete of `instances[i]` answers. */
  method HibernateCluster(stopped: StoppedCheck, instances: seq<Instance>, pvcs: seq<Pvc>,
                          outcomes: seq<DeleteOutcome>)
    returns (waitingForDeletion: bool, err: Option<Error>, deleteCalls: seq<Instance>)
    requires |outcomes| == |instances|
    ensures Outcome(waitingForDeletion, err, deleteCalls) == Hibernate(stopped, instances, pvcs, outcomes)
  {
    deleteCalls := [];
    match stopped
    case CheckFailed(e) =>
      return true, Some(e), deleteCalls;
    case Answered(areStopped) =>
      if !areStopped {
        return true, None, deleteCalls;
      }

    for k := 0 to |pvcs|
      invariant forall j | 0 <= j < k :: PvcReady(pvcs[j])
    {
      if !PvcReady(pvcs[k]) {
        return true, None, deleteCalls;
      }
    }

    for i := 0 to |instances|
      invariant deleteCalls == instances[..i]
      invariant forall j | 0 <= j < i :: !outcomes[j].Failed?
    {
      deleteCalls := deleteCalls + [instances[i]];
      if outcomes[i].Failed? {
        return true, Some(CannotKillPod(outcomes[i].err)), deleteCalls;
      }
    }
    assert deleteCalls == instances;
    return false, None, deleteCalls;
  }
}
