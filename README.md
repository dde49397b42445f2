# Cluster hibernation step

A Dafny model of the hibernation step of the CloudNativePG cluster
reconciler (`hibernateCluster`). One call of the step looks at the cluster's
instance pods and PVCs. It decides how far hibernation has progressed, using
three gates in order:

1. It asks whether every instance is stopped. A query error is returned as
   `(true, err)`. "Not yet" is returned as `(true, nil)`.
2. It checks every PVC in turn. A PVC is ready when it has the
   pg_controldata annotation, has the cluster-manifest annotation, and its
   status annotation is `"detached"`. The first PVC that is not ready makes
   the step return `(true, nil)`.
3. It deletes every instance pod in list order. A "not found" answer counts
   as done. Any other error stops the step and is returned wrapped, as
   `(true, err)`. When all pods are done, the step returns `(false, nil)`.
   PVCs are never deleted.

The Kubernetes collaborators are inputs to the model:

- the answer of the stopped query is a `StoppedCheck`: `Answered(bool)` or
  `CheckFailed(err)`;
- each PVC is a name and its annotation map;
- what the delete of pod `i` answers is `outcomes[i]`: `Deleted`,
  `NotFound`, or `Failed(err)`.

`ClusterHibernate.HibernateCluster` is the step written as the Go code runs
it: an early return for each gate, a loop over the PVCs, and a loop over the
pods. It returns `(waitingForDeletion, err)` plus the trace of the pods it
sent a delete to. Its postcondition equates all three with the pure function
`ClusterHibernate.Hibernate`. The lemmas in `HibernateProperties` state the
step's promises about that function.

Files:

- `hibernate.dfy`: module `ClusterHibernate` holds the data model, the PVC
  check, the deletion phase as a function, the whole step as a function, and
  the imperative step.
- `hibernate_properties.dfy`: module `HibernateProperties` holds the lemmas
  about the gates, the deletion order, error handling, repeated calls, and
  two concrete scenarios.

## Model

| member | source | states |
|---|---|---|
| `ClusterHibernate.PvcReady` | controllers/cluster_hibernate.go:51-54 | A PVC passes exactly when the pg_controldata annotation and the manifest annotation are present and the status annotation is present with value "detached". A missing status reads as "" and fails. |
| `ClusterHibernate.AllPvcsReady` | controllers/cluster_hibernate.go:49-58 | The PVC gate passes exactly when every PVC is `PvcReady`. An empty PVC list passes. |
| `ClusterHibernate.DeleteAll` | controllers/cluster_hibernate.go:62-75 | Deletes are sent in list order, at most one per pod, and the trace is a prefix of the pod list. Every delete before the last was tolerated. The phase has no error exactly when no outcome is a non-"not found" failure; then it returns `(false, nil)` and every pod got a delete. Otherwise it stops at the first such failure and returns `(true, wrapped error of that delete)`. |
| `ClusterHibernate.Hibernate` | controllers/cluster_hibernate.go:42-75 | No pod gets a delete unless the stopped query answered true and every PVC is ready. Only pods of the snapshot are deleted. `waitingForDeletion == false` implies no error and a delete for every pod. |
| `ClusterHibernate.HibernateCluster` | controllers/cluster_hibernate.go:32-76 | The imperative step (gate by early return, PVC loop, delete loop) returns the same `(waitingForDeletion, err)` and the same delete trace as `Hibernate`. |
| `HibernateProperties.StoppedCheckErrorIsReturned` | controllers/cluster_hibernate.go:42-43 | An error from the stopped query is returned unchanged, with `waitingForDeletion == true` and no delete. |
| `HibernateProperties.NotStoppedWaits` | controllers/cluster_hibernate.go:44-46 | If not every instance is stopped, the result is `(true, nil)` with no delete. |
| `HibernateProperties.MissingStatusIsNotReady` | controllers/cluster_hibernate.go:51-54 | A PVC without the status annotation never passes the gate. |
| `HibernateProperties.UnreadyPvcBlocksDeletion` | controllers/cluster_hibernate.go:49-58 | Once instances are stopped, any unready PVC at any position gives `(true, nil)` with no delete. |
| `HibernateProperties.DeletionStartsIffGatesPass` | controllers/cluster_hibernate.go:42-64 | With at least one pod, a delete is sent if and only if the stopped query answered true and every PVC is ready. An empty PVC list passes the gate. |
| `HibernateProperties.FatalDeleteStopsTheStep` | controllers/cluster_hibernate.go:62-69 | If pod `i` is the first whose delete fails with an error other than "not found", the result is `(true, wrapped error of that delete)`. Pods `0..i-1` each got one tolerated delete and pod `i` got one failed delete: the trace is `instances[..i+1]`. No later pod got a delete, and no delete is withdrawn. |
| `HibernateProperties.ToleratedDeletesComplete` | controllers/cluster_hibernate.go:62-75 | If both gates pass and every delete answers `Deleted` or `NotFound`, every pod gets one delete in list order and the result is `(false, nil)`. |
| `HibernateProperties.RepeatedStepCompletes` | controllers/cluster_hibernate.go:62-75 | If a step completed on a snapshot, it finished without error. Running it again on the same snapshot, with every pod already gone (`NotFound`), also completes with `(false, nil)` after one delete per pod. |
| `HibernateProperties.PendingPvcScenario` | controllers/cluster_hibernate.go:49-58 | Two stopped pods, where the second PVC's status is "pending": the step waits and deletes nothing. |
| `HibernateProperties.ReadyPvcScenario` | controllers/cluster_hibernate.go:62-75 | The same snapshot with both PVCs ready: both pods get a delete in order, and the step completes. |

## Left out

- Logging (`log.FromContext` and the `Info` calls) is left out. It is diagnostic only and does not affect control flow.
- `context.Context` and the `ClusterReconciler` receiver are left out. Cancellation and overlapping reconciliation passes are left out too; the step is modelled as one sequential call.
- `allInstancesAreStopped` is not part of this model. Its answer is the input `stopped`.
- `r.Delete` and `apierrs.IsNotFound` are not part of this model. What each delete answers, already classified, is the input `outcomes`. One outcome per pod is given, so `HibernateCluster` requires `|outcomes| == |instances|`.
- The annotation keys and the "detached" value are defined in `pkg/specs` and `pkg/utils`, which are not part of this model. The constants carry plausible values. The properties depend only on the three keys being distinct and on "detached" not being the empty string.
- The message text of the wrapped delete error is left out. `CannotKillPod(cause)` records only that the error wraps the delete's error.
- Pods, PVCs and errors carry only the fields the step reads: a pod's name, a PVC's name and annotations, and an error's reason.
- The PVC loop returns at the first unready PVC, as the code does. It does not go on to inspect the remaining PVCs.
