/**
 * `forwardEvent` (pkg/falcosidekick/handler.go): a normalised payload becomes
 * a FalcoEvent record named after the payload's hash and is written with a
 * create-or-patch that replaces the record's labels and spec wholesale.
 */
module Forwarder {
  import opened Wrappers
  import opened Strings
  import opened Api
  import opened ObjectStore

  /** The error `jsonx.Marshal` reports, as far as the model needs it. */
  const MarshalError: StoreError := Other("json: unsupported value")

  /** `fmt.Sprintf("fe-%d", evHash)`. */
  function EventName(hash: uint64): string
  {
    "fe-" + Decimal(hash)
  }

  /** Equal hashes name the same record and different hashes different records. */
  lemma EventNameInjective(a: uint64, b: uint64)
    ensures EventName(a) == EventName(b) <==> a == b
  {
    if EventName(a) == EventName(b) {
      assert Decimal(a) == EventName(a)[3..];
      assert Decimal(b) == EventName(b)[3..];
      DecimalInjective(a, b);
    }
  }

  /** The string-valued namespace and pod output fields, under their own keys. */
  function PodLabelMap(fields: FieldMap): map<string, string>
  {
    var e := fields.Entries();
    map k | k in e && (k == NsLabel || k == PodLabel) && e[k].Str? :: e[k].s
  }

  /**
   * The record's labels: only the three label keys appear; the namespace and
   * pod labels are present exactly when the output field holds a string, with
   * that string; the node label is present exactly when the node is non-empty.
   */
  function RecordLabels(fields: FieldMap, node: string): (labels: map<string, string>)
    ensures forall k | k in labels :: k == NsLabel || k == PodLabel || k == NodeLabel
    ensures NsLabel in labels <==> NsLabel in fields.Entries() && fields.Entries()[NsLabel].Str?
    ensures NsLabel in labels ==> labels[NsLabel] == fields.Entries()[NsLabel].s
    ensures PodLabel in labels <==> PodLabel in fields.Entries() && fields.Entries()[PodLabel].Str?
    ensures PodLabel in labels ==> labels[PodLabel] == fields.Entries()[PodLabel].s
    ensures NodeLabel in labels <==> node != ""
    ensures node != "" ==> labels[NodeLabel] == node
  {
    if node != "" then PodLabelMap(fields)[NodeLabel := node] else PodLabelMap(fields)
  }

  /** The labels loop of `forwardEvent`: a type switch over every output field. */
  method CopyPodLabels(fields: FieldMap) returns (labels: map<string, string>)
    ensures labels == PodLabelMap(fields)
  {
    labels := map[];
    var e := fields.Entries();
    var todo := e.Keys;
    while todo != {}
      invariant todo <= e.Keys
      invariant forall k | k in labels :: k in e && k !in todo && (k == NsLabel || k == PodLabel) && e[k].Str? && labels[k] == e[k].s
      invariant forall k | k in e && k !in todo && (k == NsLabel || k == PodLabel) && e[k].Str? :: k in labels
      decreases todo
    {
      var k :| k in todo;
      todo := todo - {k};
      if k == NsLabel || k == PodLabel {
        var v := e[k];
        if v.Str? {
          labels := labels[k := v.s];
        }
      }
    }
    assert labels == PodLabelMap(fields);
  }

  /** The node a pod named after the payload's hostname runs on, or "" when the lookup fails or is skipped. */
  function NodeFor(pods: map<string, string>, hostname: string): string
  {
    if hostname != "" && hostname in pods then pods[hostname] else ""
  }

  /** The record built from a payload, its hash, the node found and the marshalled output fields. */
  function BuildEvent(p: FalcoPayload, hash: uint64, node: string, blob: string): FalcoEvent
  {
    FalcoEvent(EventName(hash), RecordLabels(p.outputFields, node),
      FalcoEventSpec(p.uuid, p.output, p.priority, p.rule, p.time, blob, p.source, p.tags, p.hostname, node))
  }

  /** What `forwardEvent` returns and leaves in the store. */
  function ForwardOutcome(events: map<string, FalcoEvent>, pods: map<string, string>, faults: Faults,
                          p: FalcoPayload, hash: uint64, fx: Foreign): (Option<StoreError>, map<string, FalcoEvent>)
  {
    match fx.marshal(p.outputFields)
    case None => (Some(MarshalError), events)
    case Some(blob) => UpsertOutcome(events, faults, BuildEvent(p, hash, NodeFor(pods, p.hostname), blob))
  }

  /** Get, Create and Patch of the record `name` all go through. */
  predicate NoUpsertFault(faults: Faults, name: string)
  {
    (OpGet, name) !in faults && (OpCreate, name) !in faults && (OpPatch, name) !in faults
  }

  /**
   * A forward either fails and leaves the store as it was, or leaves the
   * freshly built record under `fe-<hash>` and every other record untouched;
   * a marshal failure is an error, and when marshalling works and the
   * store accepts the record the forward succeeds, whatever the pod lookup
   * found (`pods` is arbitrary).
   */
  lemma ForwardEffect(events: map<string, FalcoEvent>, pods: map<string, string>, faults: Faults,
                      p: FalcoPayload, hash: uint64, fx: Foreign)
    requires forall n | n in events :: events[n].name == n
    ensures var (err, after) := ForwardOutcome(events, pods, faults, p, hash, fx);
      && (err.Some? ==> after == events)
      && (fx.marshal(p.outputFields).None? ==> err == Some(MarshalError))
      && (err.None? ==> fx.marshal(p.outputFields).Some?
                        && after == events[EventName(hash) := BuildEvent(p, hash, NodeFor(pods, p.hostname), fx.marshal(p.outputFields).value)])
      && (fx.marshal(p.outputFields).Some? && NoUpsertFault(faults, EventName(hash)) ==> err.None?)
  {
    if fx.marshal(p.outputFields).Some? {
      UpsertReplacesWholesale(events, faults, BuildEvent(p, hash, NodeFor(pods, p.hostname), fx.marshal(p.outputFields).value));
    }
  }

  /** `forwardEvent`. */
  method ForwardEvent(kc: Store, payload: FalcoPayload, hash: uint64, fx: Foreign) returns (err: Option<StoreError>)
    requires kc.Valid()
    modifies kc`events
    ensures kc.Valid()
    ensures (err, kc.events) == ForwardOutcome(old(kc.events), kc.pods, kc.faults, payload, hash, fx)
  {
    var nodeName := "";
    if payload.hostname != "" {
      var node := kc.GetPodNode(payload.hostname);
      if node.Some? {
        nodeName := node.value;
      }
    }
    var blob := fx.marshal(payload.outputFields);
    if blob.None? {
      return Some(MarshalError);
    }
    var labels := CopyPodLabels(payload.outputFields);
    if nodeName != "" {
      labels := labels[NodeLabel := nodeName];
    }
    var obj := FalcoEvent(EventName(hash), labels,
      FalcoEventSpec(payload.uuid, payload.output, payload.priority, payload.rule, payload.time,
                     blob.value, payload.source, payload.tags, payload.hostname, nodeName));
    err := kc.CreateOrPatch(obj);
  }
}
