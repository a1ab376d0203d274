/**
 * The webhook entry point (pkg/falcosidekick/handler.go): `Handler` rejects
 * or dispatches a request, and `mustForwardEvent` forwards a payload only
 * when the process-wide `eventHashes` cache has not seen its hash within the
 * last ten minutes. The cache and the store client live in one object; the
 * configuration is the one `getConfig` produced at start-up.
 */
module Handler {
  import opened Wrappers
  import opened Api
  import opened ObjectStore
  import opened Config
  import opened Normalizer
  import opened Forwarder
  import opened Metrics

  /** `eventRefreshTTL`. */
  const EventRefreshTTL: int := 10 * Minute

  const InvalidBody: string := "Please send a valid request body"

  /** An HTTP request: its method and its body, None for a nil body. */
  datatype Request = Request(verb: string, body: Option<string>)

  /**
   * What the handler writes back; an ingested event gets an empty 200
   * response. `Dropped` is a panic in the handler: net/http recovers it and
   * closes the connection without writing a response.
   */
  datatype Response =
    | Rejected(status: int, message: string)
    | MetricsPage(metrics: seq<Metric>)
    | MetricsFailed(status: int, error: StoreError)
    | Accepted
    | Dropped

  /** The gate of `mustForwardEvent`: an unseen hash, or one last recorded more than ten minutes ago. */
  predicate ShouldForward(cache: map<uint64, Time>, h: uint64, now: Time)
  {
    h !in cache || Since(now, cache[h]) > EventRefreshTTL
  }

  /** The cache after a forward: the payload's own time is recorded when the write succeeded or the record already existed. */
  function CacheAfter(cache: map<uint64, Time>, h: uint64, t: Time, err: Option<StoreError>): (c: map<uint64, Time>)
    ensures c.Keys == if err.None? || err == Some(AlreadyExists) then cache.Keys + {h} else cache.Keys
    ensures forall k | k in c && k != h :: c[k] == cache[k]
    ensures err.None? || err == Some(AlreadyExists) ==> c[h] == t
    ensures !(err.None? || err == Some(AlreadyExists)) ==> c == cache
  {
    if err.None? || err == Some(AlreadyExists) then cache[h := t] else cache
  }

  /** A hash recorded at `t` is suppressed up to and including `t` + 10 minutes, and forwarded again after. */
  lemma RefreshWindow(cache: map<uint64, Time>, h: uint64, t: Time, now: Time)
    requires h in cache && cache[h] == t
    ensures ShouldForward(cache, h, now) <==> now - t > EventRefreshTTL
  {
  }

  /**
   * The cache records the payload's timestamp, not the clock: a later event
   * carrying an older timestamp moves the entry back, so the recorded times
   * of one hash are not monotone.
   */
  lemma CacheEntryCanMoveBack(h: uint64)
    ensures var first := CacheAfter(map[], h, 20 * Minute, None);
      && ShouldForward(first, h, 31 * Minute)
      && CacheAfter(first, h, 5 * Minute, None)[h] < first[h]
  {
  }

  /** A payload time-stamped more than ten minutes before the clock is forwarded on every delivery that succeeds. */
  lemma BackdatedEventAlwaysForwarded(cache: map<uint64, Time>, h: uint64, t: Time, now: Time)
    requires now - t > EventRefreshTTL && now - t <= MaxDuration
    ensures ShouldForward(CacheAfter(cache, h, t, None), h, now)
  {
  }

  class Sidekick {
    const config: Configuration
    /**
     * An iteration order of Go's map over `config.templatedFields`. Go may
     * take a different order on every request; the model fixes one order
     * for the life of the handler.
     */
    const templateOrder: seq<string>
    const kc: Store
    /** `eventHashes`: event hash to the payload time last written. */
    var eventHashes: map<uint64, Time>

    ghost predicate Valid()
      reads this, kc
    {
      kc.Valid() && Enumerates(templateOrder, config.templatedFields.Keys)
    }

    constructor(config: Configuration, templateOrder: seq<string>, kc: Store)
      requires kc.Valid() && Enumerates(templateOrder, config.templatedFields.Keys)
      ensures Valid()
      ensures this.config == config && this.templateOrder == templateOrder && this.kc == kc
      ensures eventHashes == map[]
    {
      this.config := config;
      this.templateOrder := templateOrder;
      this.kc := kc;
      eventHashes := map[];
    }

    /**
     * `mustForwardEvent`: forwards iff the gate opens, leaves store and cache
     * alone otherwise, and afterwards records the payload's time under its
     * hash unless the write failed with an error other than AlreadyExists.
     * `err` is the error the source only logs; `now` is the clock.
     */
    method MustForwardEvent(payload: FalcoPayload, fx: Foreign, now: Time) returns (forwarded: bool, err: Option<StoreError>)
      requires Valid()
      modifies this`eventHashes, kc`events
      ensures Valid()
      ensures forwarded == ShouldForward(old(eventHashes), fx.hashKey(payload), now)
      ensures !forwarded ==> err.None? && eventHashes == old(eventHashes) && kc.events == old(kc.events)
      ensures forwarded ==> (err, kc.events) == ForwardOutcome(old(kc.events), kc.pods, kc.faults, payload, fx.hashKey(payload), fx)
      ensures forwarded ==> eventHashes == CacheAfter(old(eventHashes), fx.hashKey(payload), payload.time, err)
    {
      var hashKey := fx.hashKey(payload);
      forwarded := hashKey !in eventHashes || Since(now, eventHashes[hashKey]) > EventRefreshTTL;
      err := None;
      if forwarded {
        err := ForwardEvent(kc, payload, hashKey, fx);
        if err.None? || err == Some(AlreadyExists) {
          eventHashes := eventHashes[hashKey := payload.time];
        }
      }
    }

    /**
     * `Handler`: a nil body is rejected; a GET serves the metrics page; any
     * other request is decoded and normalised, rejected if that fails or the
     * payload fails `Check()`, and otherwise passed to MustForwardEvent. Only
     * that last path touches the cache or the store. `normalized` is the
     * payload newFalcoPayload produced; `uuid` is the fresh request id.
     */
    method ServeHTTP(req: Request, fx: Foreign, now: Time, uuid: string) returns (resp: Response, ghost normalized: Option<FalcoPayload>)
      requires Valid()
      modifies this`eventHashes, kc`events
      ensures Valid()
      ensures req.body.None? ==> resp == Rejected(400, InvalidBody)
      ensures req.body.Some? && req.verb == "GET" ==> (resp.MetricsPage? || resp.MetricsFailed?)
      ensures req.body.Some? && req.verb == "GET" ==> (resp.MetricsFailed? <==> kc.listFault.Some?)
      ensures resp.MetricsFailed? ==> kc.listFault.Some? && resp == MetricsFailed(400, kc.listFault.value)
      ensures resp.MetricsPage? ==>
        exists listed, visited :: IsListing(listed, kc.events) && EmitsDecoded(Tally(listed, StringKey), visited, resp.metrics)
      ensures req.body.Some? && req.verb != "GET" ==>
        var decoded := fx.decode(req.body.value);
        && (normalized.Some? <==> decoded.Some? && !PanicsOn(decoded.value, config))
        && (decoded.None? ==> resp == Rejected(400, InvalidBody))
        && (decoded.Some? && PanicsOn(decoded.value, config) ==> resp == Dropped)
        && (normalized.Some? ==> Normalized(decoded.value, config, templateOrder, fx, uuid, normalized.value))
        && (resp == Accepted <==> normalized.Some? && fx.check(normalized.value))
        && (normalized.Some? && !fx.check(normalized.value) ==> resp == Rejected(400, InvalidBody))
      ensures resp != Accepted ==> eventHashes == old(eventHashes) && kc.events == old(kc.events)
      ensures resp == Accepted ==> normalized.Some?
      ensures resp == Accepted ==>
        var p, h := normalized.value, fx.hashKey(normalized.value);
        if ShouldForward(old(eventHashes), h, now) then
          var (err, after) := ForwardOutcome(old(kc.events), kc.pods, kc.faults, p, h, fx);
          kc.events == after && eventHashes == CacheAfter(old(eventHashes), h, p.time, err)
        else
          kc.events == old(kc.events) && eventHashes == old(eventHashes)
    {
      normalized := None;
      if req.body.None? {
        return Rejected(400, InvalidBody), normalized;
      }
      if req.verb == "GET" {
        var page, listed, visited := CollectFalcoMetrics(kc);
        if page.Err? {
          return MetricsFailed(400, page.error), normalized;
        }
        return MetricsPage(page.value), normalized;
      }
      var falcopayload := NewFalcoPayload(req.body.value, config, templateOrder, fx, uuid);
      if falcopayload.Ok? {
        normalized := Some(falcopayload.value);
      }
      if falcopayload == Err(Panicked) {
        return Dropped, normalized;
      }
      assert falcopayload.Err? ==> falcopayload.error == MalformedPayload;
      if falcopayload.Err? || !fx.check(falcopayload.value) {
        return Rejected(400, InvalidBody), normalized;
      }
      var forwarded, err := MustForwardEvent(falcopayload.value, fx, now);
      resp := Accepted;
    }
  }
}
