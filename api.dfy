/**
 * The values the event pipeline works on: the decoded webhook payload, the
 * persisted FalcoEvent record, the errors of the object store, and Go's time
 * arithmetic. Calls into code outside the model are function values in Foreign.
 */
module Api {
  import opened Wrappers

  type uint64 = x: int | 0 <= x < 0x1_0000_0000_0000_0000

  /** A `time.Time` as nanoseconds since Go's zero time (0001-01-01 UTC): `IsZero()` is `t == 0`. */
  type Time = int

  /** The range of `time.Duration` (an int64 count of nanoseconds). */
  const MinDuration: int := -0x8000_0000_0000_0000
  const MaxDuration: int := 0x7fff_ffff_ffff_ffff
  const Minute: int := 60_000_000_000
  const Hour: int := 60 * Minute

  /** `t.Sub(u)`: the difference, saturated to the Duration range. */
  function Sub(t: Time, u: Time): (d: int)
    ensures MinDuration <= d <= MaxDuration
  {
    if t - u > MaxDuration then MaxDuration
    else if t - u < MinDuration then MinDuration
    else t - u
  }

  /** `time.Since(t)` read at wall-clock time `now`. */
  function Since(now: Time, t: Time): int
  {
    Sub(now, t)
  }

  /**
   * The retention predicate shared by the periodic sweep and the reconciler:
   * `time.Since(ev.Spec.Time.Time) >= ttl`.
   */
  predicate Expired(now: Time, eventTime: Time, ttl: int)
  {
    Since(now, eventTime) >= ttl
  }

  /** An `interface{}` value produced by `encoding/json` with `UseNumber`. */
  datatype FieldValue =
    | Str(s: string)
    | Number(literal: string)
    | Boolean(b: bool)
    | Null
    | Composite(json: string)

  /** `map[string]interface{}`, which may be nil. */
  datatype FieldMap = NilMap | Fields(entries: map<string, FieldValue>)
  {
    function Entries(): map<string, FieldValue>
    {
      if NilMap? then map[] else entries
    }
  }

  /** The fields of `types.FalcoPayload` the server reads; `priority` is already `Priority.String()`. */
  datatype FalcoPayload = FalcoPayload(
    uuid: string,
    output: string,
    priority: string,
    rule: string,
    time: Time,
    outputFields: FieldMap,
    source: string,
    tags: seq<string>,
    hostname: string)

  /** `FalcoEventSpec`; `outputFields` is the raw JSON the marshaller produced. */
  datatype FalcoEventSpec = FalcoEventSpec(
    uuid: string,
    output: string,
    priority: string,
    rule: string,
    time: Time,
    outputFields: string,
    source: string,
    tags: seq<string>,
    hostname: string,
    nodename: string)

  /** A cluster-scoped FalcoEvent record: its name, its labels and its spec. */
  datatype FalcoEvent = FalcoEvent(name: string, labels: map<string, string>, spec: FalcoEventSpec)

  /** What an object-store call can return besides success. */
  datatype StoreError = NotFound | AlreadyExists | Other(message: string)

  const NsLabel: string := "k8s.ns.name"
  const PodLabel: string := "k8s.pod.name"
  const NodeLabel: string := "k8s.node.name"

  /** `items` lists exactly the records of `m`, each once. */
  ghost predicate IsListing(items: seq<FalcoEvent>, m: map<string, FalcoEvent>)
  {
    && (forall i | 0 <= i < |items| :: items[i].name in m && m[items[i].name] == items[i])
    && (forall i, j | 0 <= i < j < |items| :: items[i].name != items[j].name)
    && (forall n | n in m :: exists i | 0 <= i < |items| :: items[i].name == n)
  }

  /** The result of executing a parsed template: the text written so far, and whether execution failed. */
  datatype Rendering = Rendering(output: string, failed: bool)

  /**
   * The calls into code outside the model: the JSON decoder (None is a decode
   * error), `FalcoPayload.Check`, `FalcoPayload.HashKey`, `template.Parse`
   * (false is a parse error), `Template.Execute` over the current output
   * fields, and `jsonx.Marshal` (None is a marshal error).
   */
  datatype Foreign = Foreign(
    decode: string -> Option<FalcoPayload>,
    check: FalcoPayload -> bool,
    hashKey: FalcoPayload -> uint64,
    parse: string -> bool,
    execute: (string, map<string, FieldValue>) -> Rendering,
    marshal: FieldMap -> Option<string>)
}
