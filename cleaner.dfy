/**
 * The periodic retention sweep (pkg/cleaner/falcoevent_cleaner.go): every
 * tick lists all FalcoEvent records and deletes those whose age has reached
 * the TTL, tolerating records that are already gone and stopping at the first
 * other Delete error.
 */
module Cleaner {
  import opened Wrappers
  import opened Api
  import opened ObjectStore

  /** The period of `time.Tick` in StartCleaner. */
  const CleanerPeriod: int := 30 * Minute

  /** The default TTL (ReportTTL / EventTTLPeriod) the server is started with. */
  const DefaultTTL: int := 12 * Hour

  /** What the sweep over the listed `items` returns and leaves in the store. */
  function SweepOutcome(events: map<string, FalcoEvent>, faults: Faults, items: seq<FalcoEvent>, now: Time, ttl: int)
    : (Option<StoreError>, map<string, FalcoEvent>)
    decreases |items|
  {
    if items == [] then (None, events)
    else if !Expired(now, items[0].spec.time, ttl) then SweepOutcome(events, faults, items[1..], now, ttl)
    else
      var (err, after) := DeleteOutcome(events, faults, items[0].name);
      if err.Some? && err.value != NotFound then (err, after)
      else SweepOutcome(after, faults, items[1..], now, ttl)
  }

  /** The names of the listed records whose age has reached the TTL. */
  function ExpiredNames(items: seq<FalcoEvent>, now: Time, ttl: int): set<string>
  {
    set i | 0 <= i < |items| && Expired(now, items[i].spec.time, ttl) :: items[i].name
  }

  /** An expired record whose Delete fails with an error other than NotFound. */
  predicate HardFault(faults: Faults, ev: FalcoEvent, now: Time, ttl: int)
  {
    && Expired(now, ev.spec.time, ttl)
    && (OpDelete, ev.name) in faults
    && faults[(OpDelete, ev.name)] != NotFound
  }

  /** No expired record among `items` meets a Delete fault. */
  predicate DeletesSucceed(faults: Faults, items: seq<FalcoEvent>, now: Time, ttl: int)
  {
    forall i | 0 <= i < |items| :: Expired(now, items[i].spec.time, ttl) ==> (OpDelete, items[i].name) !in faults
  }

  lemma ExpiredNamesCons(items: seq<FalcoEvent>, now: Time, ttl: int)
    requires items != []
    ensures ExpiredNames(items, now, ttl) ==
      (if Expired(now, items[0].spec.time, ttl) then {items[0].name} else {}) + ExpiredNames(items[1..], now, ttl)
  {
    var rest := items[1..];
    forall n | n in ExpiredNames(items, now, ttl)
      ensures n in (if Expired(now, items[0].spec.time, ttl) then {items[0].name} else {}) + ExpiredNames(rest, now, ttl)
    {
      var i :| 0 <= i < |items| && Expired(now, items[i].spec.time, ttl) && items[i].name == n;
      if i > 0 {
        assert rest[i - 1] == items[i];
      }
    }
    forall n | n in ExpiredNames(rest, now, ttl)
      ensures n in ExpiredNames(items, now, ttl)
    {
      var i :| 0 <= i < |rest| && Expired(now, rest[i].spec.time, ttl) && rest[i].name == n;
      assert items[i + 1] == rest[i];
    }
  }

  /**
   * Whatever the faults, the sweep only deletes: every surviving record is
   * unchanged and every record gone was listed as expired. A returned error
   * is never NotFound.
   */
  lemma {:induction false} SweepOnlyDeletesExpired(events: map<string, FalcoEvent>, faults: Faults, items: seq<FalcoEvent>, now: Time, ttl: int)
    ensures var (err, after) := SweepOutcome(events, faults, items, now, ttl);
      && (err.Some? ==> err.value != NotFound)
      && (forall n | n in after :: n in events && after[n] == events[n])
      && (forall n | n in events && n !in after :: n in ExpiredNames(items, now, ttl))
    decreases |items|
  {
    if items != [] {
      ExpiredNamesCons(items, now, ttl);
      if !Expired(now, items[0].spec.time, ttl) {
        SweepOnlyDeletesExpired(events, faults, items[1..], now, ttl);
      } else {
        var (err, after) := DeleteOutcome(events, faults, items[0].name);
        if !(err.Some? && err.value != NotFound) {
          SweepOnlyDeletesExpired(after, faults, items[1..], now, ttl);
        }
      }
    }
  }

  /** With no Delete fault on an expired record, the sweep succeeds and removes exactly the expired names. */
  lemma {:induction false} SweepWithoutFaults(events: map<string, FalcoEvent>, faults: Faults, items: seq<FalcoEvent>, now: Time, ttl: int)
    requires DeletesSucceed(faults, items, now, ttl)
    ensures SweepOutcome(events, faults, items, now, ttl) == (None, events - ExpiredNames(items, now, ttl))
    decreases |items|
  {
    if items == [] {
      assert events - ExpiredNames(items, now, ttl) == events;
    } else {
      ExpiredNamesCons(items, now, ttl);
      assert DeletesSucceed(faults, items[1..], now, ttl) by {
        forall i | 0 <= i < |items[1..]| ensures Expired(now, items[1..][i].spec.time, ttl) ==> (OpDelete, items[1..][i].name) !in faults {
          assert items[1..][i] == items[i + 1];
        }
      }
      var n := items[0].name;
      if !Expired(now, items[0].spec.time, ttl) {
        assert ExpiredNames(items, now, ttl) == ExpiredNames(items[1..], now, ttl);
        SweepWithoutFaults(events, faults, items[1..], now, ttl);
      } else {
        var after := DeleteOutcome(events, faults, n).1;
        assert after == events - {n};
        SweepWithoutFaults(after, faults, items[1..], now, ttl);
        assert events - {n} - ExpiredNames(items[1..], now, ttl) == events - ExpiredNames(items, now, ttl);
      }
    }
  }

  /**
   * The first expired record whose Delete fails hard ends the sweep with
   * that error: the expired records listed before it are gone and nothing
   * listed after it is touched.
   */
  lemma {:induction false} SweepStopsAtHardFault(events: map<string, FalcoEvent>, faults: Faults, items: seq<FalcoEvent>, now: Time, ttl: int, j: nat)
    requires j < |items| && HardFault(faults, items[j], now, ttl)
    requires DeletesSucceed(faults, items[..j], now, ttl)
    ensures SweepOutcome(events, faults, items, now, ttl) ==
      (Some(faults[(OpDelete, items[j].name)]), events - ExpiredNames(items[..j], now, ttl))
    decreases j
  {
    var n := items[0].name;
    if j == 0 {
      assert events - ExpiredNames(items[..0], now, ttl) == events;
    } else {
      assert items[1..][j - 1] == items[j];
      assert items[..j][1..] == items[1..][..j - 1];
      var rest := items[1..][..j - 1];
      assert DeletesSucceed(faults, rest, now, ttl) by {
        forall i | 0 <= i < |rest|
          ensures Expired(now, rest[i].spec.time, ttl) ==> (OpDelete, rest[i].name) !in faults
        {
          assert rest[i] == items[..j][i + 1];
        }
      }
      assert items[..j][0] == items[0];
      ExpiredNamesCons(items[..j], now, ttl);
      if !Expired(now, items[0].spec.time, ttl) {
        assert ExpiredNames(items[..j], now, ttl) == ExpiredNames(rest, now, ttl);
        SweepStopsAtHardFault(events, faults, items[1..], now, ttl, j - 1);
      } else {
        var after := DeleteOutcome(events, faults, n).1;
        assert after == events - {n};
        SweepStopsAtHardFault(after, faults, items[1..], now, ttl, j - 1);
        assert events - {n} - ExpiredNames(items[1..][..j - 1], now, ttl) == events - ExpiredNames(items[..j], now, ttl);
      }
    }
  }

  /** Over a listing of the store, records strictly younger than the TTL survive the sweep unchanged. */
  lemma YoungRecordsSurvive(events: map<string, FalcoEvent>, faults: Faults, items: seq<FalcoEvent>, now: Time, ttl: int)
    requires IsListing(items, events)
    ensures var after := SweepOutcome(events, faults, items, now, ttl).1;
      forall n | n in events && !Expired(now, events[n].spec.time, ttl) :: n in after && after[n] == events[n]
  {
    SweepOnlyDeletesExpired(events, faults, items, now, ttl);
  }

  /** Over a listing of the store with no Delete faults, exactly the records whose age reached the TTL are removed. */
  lemma SweepRemovesExactlyExpired(events: map<string, FalcoEvent>, faults: Faults, items: seq<FalcoEvent>, now: Time, ttl: int)
    requires IsListing(items, events)
    requires DeletesSucceed(faults, items, now, ttl)
    ensures SweepOutcome(events, faults, items, now, ttl) ==
      (None, map n | n in events && !Expired(now, events[n].spec.time, ttl) :: events[n])
  {
    SweepWithoutFaults(events, faults, items, now, ttl);
    var kept := map n | n in events && !Expired(now, events[n].spec.time, ttl) :: events[n];
    forall n | n in events
      ensures n in ExpiredNames(items, now, ttl) <==> Expired(now, events[n].spec.time, ttl)
    {
      var i :| 0 <= i < |items| && items[i].name == n;
      if n in ExpiredNames(items, now, ttl) {
        var i' :| 0 <= i' < |items| && Expired(now, items[i'].spec.time, ttl) && items[i'].name == n;
        assert events[n] == items[i'];
      }
    }
    assert events - ExpiredNames(items, now, ttl) == kept;
  }

  /** The loop of `cleanerFunc` over the listed items. */
  method SweepItems(store: Store, items: seq<FalcoEvent>, now: Time, ttl: int) returns (err: Option<StoreError>)
    requires store.Valid()
    modifies store`events
    ensures store.Valid()
    ensures (err, store.events) == SweepOutcome(old(store.events), store.faults, items, now, ttl)
  {
    for i := 0 to |items|
      invariant store.Valid()
      invariant SweepOutcome(store.events, store.faults, items[i..], now, ttl) == SweepOutcome(old(store.events), store.faults, items, now, ttl)
    {
      assert items[i..][1..] == items[i + 1..];
      var ev := items[i];
      if Since(now, ev.spec.time) >= ttl {
        var e := store.Delete(ev.name);
        if e.Some? && e.value != NotFound {
          return e;
        }
      }
    }
    assert items[|items|..] == [];
    err := None;
  }

  /**
   * `cleanerFunc`: a List error is returned and nothing is deleted;
   * otherwise the listed records are swept. `listed` is what List returned.
   */
  method CleanerFunc(store: Store, now: Time, ttl: int) returns (err: Option<StoreError>, ghost listed: seq<FalcoEvent>)
    requires store.Valid()
    modifies store`events
    ensures store.Valid()
    ensures store.listFault.Some? ==> err == store.listFault && store.events == old(store.events)
    ensures store.listFault.None? ==>
      IsListing(listed, old(store.events)) && (err, store.events) == SweepOutcome(old(store.events), store.faults, listed, now, ttl)
  {
    listed := [];
    var items := store.List();
    if items.Err? {
      return Some(items.error), listed;
    }
    listed := items.value;
    err := SweepItems(store, items.value, now, ttl);
  }

  /** Once a record has reached the TTL it stays expired at every later time. */
  lemma ExpiredStaysExpired(t: Time, now: Time, later: Time, ttl: int)
    requires now <= later && Expired(now, t, ttl)
    ensures Expired(later, t, ttl)
  {
  }

  /** The records of `events` younger than the TTL at `now`. */
  ghost function Survivors(events: map<string, FalcoEvent>, now: Time, ttl: int): map<string, FalcoEvent>
  {
    map n | n in events && !Expired(now, events[n].spec.time, ttl) :: events[n]
  }

  /**
   * One tick of the ticker: a List failure is logged and changes nothing;
   * otherwise `listed` is a listing of the store and the sweep over it gives
   * the logged error and the next store.
   */
  ghost predicate TickStep(faults: Faults, listFault: Option<StoreError>, before: map<string, FalcoEvent>,
                           listed: seq<FalcoEvent>, now: Time, ttl: int,
                           logged: Option<StoreError>, after: map<string, FalcoEvent>)
  {
    if listFault.Some? then logged == listFault && after == before
    else IsListing(listed, before) && (logged, after) == SweepOutcome(before, faults, listed, now, ttl)
  }

  /** `m` holds only records of `orig`, each unchanged. */
  ghost predicate KeptPart(orig: map<string, FalcoEvent>, m: map<string, FalcoEvent>)
  {
    forall n | n in m :: n in orig && m[n] == orig[n]
  }

  /** `m` still holds every record of `orig` younger than the TTL at `now`. */
  ghost predicate HoldsYoung(orig: map<string, FalcoEvent>, m: map<string, FalcoEvent>, now: Time, ttl: int)
  {
    forall n | n in orig && !Expired(now, orig[n].spec.time, ttl) :: n in m
  }

  /** No record of `m` has reached the TTL at `now`. */
  ghost predicate NoneExpired(m: map<string, FalcoEvent>, now: Time, ttl: int)
  {
    forall n | n in m :: !Expired(now, m[n].spec.time, ttl)
  }

  /** Every logged sweep succeeded. */
  predicate AllSucceeded(log: seq<Option<StoreError>>)
  {
    forall i | 0 <= i < |log| :: log[i].None?
  }

  /** The first `|log|` ticks, each a TickStep from `states[i]` to `states[i + 1]`. */
  ghost predicate Trace(faults: Faults, listFault: Option<StoreError>, ticks: seq<Time>, ttl: int,
                        states: seq<map<string, FalcoEvent>>, listings: seq<seq<FalcoEvent>>, log: seq<Option<StoreError>>)
  {
    && |listings| == |log| && |states| == |log| + 1 && |log| <= |ticks|
    && forall i | 0 <= i < |log| :: TickStep(faults, listFault, states[i], listings[i], ticks[i], ttl, log[i], states[i + 1])
  }

  lemma TraceSnoc(faults: Faults, listFault: Option<StoreError>, ticks: seq<Time>, ttl: int,
                  states: seq<map<string, FalcoEvent>>, listings: seq<seq<FalcoEvent>>, log: seq<Option<StoreError>>,
                  listed: seq<FalcoEvent>, logged: Option<StoreError>, after: map<string, FalcoEvent>)
    requires Trace(faults, listFault, ticks, ttl, states, listings, log) && |log| < |ticks|
    requires TickStep(faults, listFault, states[|log|], listed, ticks[|log|], ttl, logged, after)
    ensures Trace(faults, listFault, ticks, ttl, states + [after], listings + [listed], log + [logged])
  {
    var states', listings', log' := states + [after], listings + [listed], log + [logged];
    forall i | 0 <= i < |log'|
      ensures TickStep(faults, listFault, states'[i], listings'[i], ticks[i], ttl, log'[i], states'[i + 1])
    {
      if i < |log| {
        assert states'[i] == states[i] && states'[i + 1] == states[i + 1];
        assert listings'[i] == listings[i] && log'[i] == log[i];
      }
    }
  }

  lemma HoldsYoungLater(orig: map<string, FalcoEvent>, m: map<string, FalcoEvent>, now: Time, later: Time, ttl: int)
    requires now <= later && HoldsYoung(orig, m, now, ttl)
    ensures HoldsYoung(orig, m, later, ttl)
  {
    forall n | n in orig && !Expired(later, orig[n].spec.time, ttl)
      ensures n in m
    {
      if Expired(now, orig[n].spec.time, ttl) {
        ExpiredStaysExpired(orig[n].spec.time, now, later, ttl);
      }
    }
  }

  /** A part of `orig` that holds every young record and no expired one is exactly the survivors. */
  lemma ExactlySurvivors(orig: map<string, FalcoEvent>, m: map<string, FalcoEvent>, now: Time, ttl: int)
    requires KeptPart(orig, m) && HoldsYoung(orig, m, now, ttl) && NoneExpired(m, now, ttl)
    ensures m == Survivors(orig, now, ttl)
  {
  }

  /**
   * A sweep over a listing of a store that is a part of `orig` holding every
   * record of `orig` young at `now` again leaves such a part.
   */
  lemma SweepKeepsYoung(orig: map<string, FalcoEvent>, before: map<string, FalcoEvent>, faults: Faults,
                        items: seq<FalcoEvent>, now: Time, ttl: int)
    requires IsListing(items, before)
    requires KeptPart(orig, before) && HoldsYoung(orig, before, now, ttl)
    ensures var after := SweepOutcome(before, faults, items, now, ttl).1;
      KeptPart(orig, after) && HoldsYoung(orig, after, now, ttl)
  {
    SweepOnlyDeletesExpired(before, faults, items, now, ttl);
    YoungRecordsSurvive(before, faults, items, now, ttl);
  }

  /**
   * `StartCleaner` over a finite run of timer ticks at `ticks`: every sweep
   * error is logged and the next tick still sweeps, so the log has one entry
   * per tick. `states[i]` is the store before tick `i` and `listings[i]` what
   * that tick's List returned. Records are only ever removed, never changed,
   * and every record still younger than the TTL at the last tick survives.
   * When List and Delete never fail, every sweep succeeds and the store ends
   * holding exactly the records young at the last tick.
   */
  method RunCleaner(store: Store, ticks: seq<Time>, ttl: int)
    returns (log: seq<Option<StoreError>>, ghost states: seq<map<string, FalcoEvent>>, ghost listings: seq<seq<FalcoEvent>>)
    requires store.Valid()
    requires forall i | 0 < i < |ticks| :: ticks[i] == ticks[i - 1] + CleanerPeriod
    modifies store`events
    ensures store.Valid()
    ensures |log| == |ticks| && Trace(store.faults, store.listFault, ticks, ttl, states, listings, log)
    ensures states[0] == old(store.events) && states[|ticks|] == store.events
    ensures KeptPart(old(store.events), store.events)
    ensures ticks != [] ==> HoldsYoung(old(store.events), store.events, ticks[|ticks| - 1], ttl)
    ensures store.listFault.None? && (forall k | k in store.faults :: k.0 != OpDelete) ==>
      && AllSucceeded(log)
      && (ticks != [] ==> store.events == Survivors(old(store.events), ticks[|ticks| - 1], ttl))
  {
    log, states, listings := [], [store.events], [];
    ghost var orig := store.events;
    ghost var clean := store.listFault.None? && (forall k | k in store.faults :: k.0 != OpDelete);
    for i := 0 to |ticks|
      invariant store.Valid()
      invariant |log| == i && Trace(store.faults, store.listFault, ticks, ttl, states, listings, log)
      invariant states[0] == orig && states[i] == store.events
      invariant KeptPart(orig, store.events)
      invariant i > 0 ==> HoldsYoung(orig, store.events, ticks[i - 1], ttl)
      invariant clean ==> AllSucceeded(log) && (i > 0 ==> NoneExpired(store.events, ticks[i - 1], ttl))
    {
      ghost var before := store.events;
      if i > 0 {
        HoldsYoungLater(orig, before, ticks[i - 1], ticks[i], ttl);
      }
      assert HoldsYoung(orig, before, ticks[i], ttl);
      var err, listed := CleanerFunc(store, ticks[i], ttl);
      if store.listFault.None? {
        SweepKeepsYoung(orig, before, store.faults, listed, ticks[i], ttl);
        if clean {
          assert DeletesSucceed(store.faults, listed, ticks[i], ttl);
          SweepRemovesExactlyExpired(before, store.faults, listed, ticks[i], ttl);
        }
      }
      TraceSnoc(store.faults, store.listFault, ticks, ttl, states, listings, log, listed, err, store.events);
      log, states, listings := log + [err], states + [store.events], listings + [listed];
    }
    if clean && ticks != [] {
      ExactlySurvivors(orig, store.events, ticks[|ticks| - 1], ttl);
    }
  }
}
