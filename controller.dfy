/**
 * `FalcoEventReconciler.Reconcile` (pkg/controllers/falcoevent/controller.go):
 * on each notification for a record, fetch it and delete it once its age
 * has reached the TTL; the same retention predicate as the periodic sweep.
 */
module Controller {
  import opened Wrappers
  import opened Api
  import opened ObjectStore
  import Cleaner

  /** `ctrl.Result`; the reconciler always returns the empty one (no requeue). */
  datatype ReconcileResult = ReconcileResult(requeue: bool, requeueAfter: int)

  const NoRequeue: ReconcileResult := ReconcileResult(false, 0)

  /** What Reconcile returns and leaves in the store. */
  function ReconcileOutcome(events: map<string, FalcoEvent>, faults: Faults, name: string, now: Time, ttl: int)
    : (Option<StoreError>, map<string, FalcoEvent>)
  {
    match GetOutcome(events, faults, name)
    case Err(NotFound) => (None, events)
    case Err(e) => (Some(e), events)
    case Ok(ev) => if Expired(now, ev.spec.time, ttl) then DeleteOutcome(events, faults, name) else (None, events)
  }

  /** `Reconcile` for the record called `name`; `now` is the clock and `ttl` is ReportTTL. */
  method Reconcile(store: Store, name: string, now: Time, ttl: int) returns (res: ReconcileResult, err: Option<StoreError>)
    requires store.Valid()
    modifies store`events
    ensures store.Valid()
    ensures res == NoRequeue
    ensures (err, store.events) == ReconcileOutcome(old(store.events), store.faults, name, now, ttl)
  {
    res := NoRequeue;
    var r := store.Get(name);
    if r.Err? {
      err := if r.error == NotFound then None else Some(r.error);
      return;
    }
    if Since(now, r.value.spec.time) >= ttl {
      err := store.Delete(name);
      return;
    }
    err := None;
  }

  /**
   * Without faults on the record, Reconcile removes it exactly when its age
   * has reached the TTL (the boundary included) and never reports an error;
   * a record that does not exist is not an error either.
   */
  lemma ReconcileDeletesIffExpired(events: map<string, FalcoEvent>, faults: Faults, name: string, now: Time, ttl: int)
    requires (OpGet, name) !in faults && (OpDelete, name) !in faults
    ensures var (err, after) := ReconcileOutcome(events, faults, name, now, ttl);
      && err.None?
      && (name in events && Expired(now, events[name].spec.time, ttl) ==> after == events - {name})
      && (!(name in events && Expired(now, events[name].spec.time, ttl)) ==> after == events)
  {
  }

  /**
   * Reconcile and the sweep agree on a record when nothing fails: both
   * leave the store as a sweep over that one record would.
   */
  lemma ReconcileAgreesWithSweep(events: map<string, FalcoEvent>, faults: Faults, name: string, now: Time, ttl: int)
    requires name in events && events[name].name == name
    requires (OpGet, name) !in faults && (OpDelete, name) !in faults
    ensures ReconcileOutcome(events, faults, name, now, ttl) == Cleaner.SweepOutcome(events, faults, [events[name]], now, ttl)
  {
    assert [events[name]][1..] == [];
  }

  /**
   * A Delete that fails with NotFound (the record vanished between Get and
   * Delete) is returned by Reconcile, whereas the sweep treats it as success.
   */
  lemma ReconcileReportsDeleteNotFound(ev: FalcoEvent, now: Time, ttl: int)
    requires Expired(now, ev.spec.time, ttl)
    ensures var events, faults := map[ev.name := ev], map[(OpDelete, ev.name) := NotFound];
      && ReconcileOutcome(events, faults, ev.name, now, ttl).0 == Some(NotFound)
      && Cleaner.SweepOutcome(events, faults, [ev], now, ttl).0 == None
  {
    assert [ev][1..] == [];
  }
}
