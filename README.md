# Falco event pipeline of falco-ui-server, modelled in Dafny

falco-ui-server receives Falco alerts over HTTP. It does the following with them:

- It builds a payload from each alert. Configured custom fields are merged in, templated fields are rendered and brackets in field names are replaced.
- It de-duplicates alerts through an in-memory cache of payload hashes.
- It stores each forwarded alert as a `FalcoEvent` record named `fe-<hash>`. The record's namespace, pod and node labels are copied from the alert, and the record is upserted through CreateOrPatch.
- It exposes a Prometheus count of the records per (node, namespace, priority, rule, pod).
- It expires old records two ways: a periodic sweep (the cleaner) and a per-record reconciler.
- It renders the records as Kubernetes tables.

The model covers that pipeline:

| file | module | models |
|---|---|---|
| `wrappers.dfy` | `Wrappers` | `Option`, `Result` |
| `strings.dfy` | `Strings` | Go's `strings.Split`, `strings.Join` (single-character separator), `strings.ReplaceAll` (one character replaced by a string), decimal formatting |
| `api.dfy` | `Api` | the payload and record types, store errors, Go time as nanoseconds with saturating `Sub`/`Since` |
| `store.dfy` | `ObjectStore` | the object store behind the controller-runtime client: a `Store` class whose record map is updated by `Get`/`List`/`Create`/`Patch`/`Delete`/`CreateOrPatch`; failures are injected per (verb, name) |
| `config.dfy` | `Config` | `getConfig` and the Prometheus label pattern |
| `normalizer.dfy` | `Normalizer` | `newFalcoPayload` step by step; the Prometheus labels it builds; the namespace/pod extraction |
| `forwarder.dfy` | `Forwarder` | `forwardEvent` |
| `handler.dfy` | `Handler` | the HTTP handler and `mustForwardEvent` with its hash cache, as a `Sidekick` class |
| `metrics.dfy` | `Metrics` | `criteria.toString`, `toCriteria`, `collectFalcoMetrics`, and a corrected collector |
| `cleaner.dfy` | `Cleaner` | `cleanerFunc` and the `StartCleaner` ticker |
| `controller.dfy` | `Controller` | the FalcoEvent reconciler |
| `table.dfy` | `Table` | `ConvertToTable`, `errNotAcceptable`, `ConvertToHumanReadableDateType` |

## How the environment is modelled

- **Time.** Time is an integer count of nanoseconds. `0` is Go's zero time.
  - `Api.Sub` saturates at the bounds of a 64-bit `time.Duration`, as Go's `Time.Sub` does.
  - "Now" is a parameter of every operation that reads the clock.
- **Environment and identifiers.** The process environment is a map. `uuid.New()` is a parameter.
- **Foreign functions.** The JSON decoder, `FalcoPayload.Check`, `FalcoPayload.HashKey`, template parsing and execution, and `json.Marshal` of the output fields are function parameters, bundled in `Api.Foreign`. The model states how the pipeline uses their results, not what they compute.
- **Map iteration.** Go's iteration order over a map is unspecified. Loops whose result does not depend on the order pick the next key with `:|`, and their contracts hold for every order. Template rendering does depend on the order. It takes an explicit key order, which is an enumeration of the configured templates.
- **Store failures.** The store is sequential. Concurrent writers and transient failures appear as injected errors:
  - `faults[(verb, name)]` makes that call fail and change nothing;
  - `listFault` makes `List` fail;
  - a Delete fault of `NotFound` stands for a record that vanished after it was read.

## Behaviour where the code and its description differ

- The handler treats every request method except GET as an alert submission (handler.go:54-67). There is no separate rejection of methods other than POST. `Handler.Sidekick.ServeHTTP` follows the code.
- The de-duplication cache stores the payload's own timestamp, not the time it was received (handler.go:247). A cached entry can therefore move back in time. `Handler.CacheEntryCanMoveBack` shows this.
- A back-dated alert is always forwarded again. `Handler.BackdatedEventAlwaysForwarded` shows this.

## Model

| member | source | states |
|---|---|---|
| Strings.SplitJoin | pkg/falcosidekick/config.go:58-60 | splitting the join of parts that do not contain the separator gives the parts back |
| Config.GetConfig | pkg/falcosidekick/config.go:48-79 | the custom fields are exactly those parsed from CUSTOMFIELDS, entry by entry (none when the variable is unset); templated fields, bracket replacer, debug and extra labels keep their zero values |
| Config.LiteralEntrySetsKey | pkg/falcosidekick/config.go:59-70 | an entry `key:value` stores `value` under `key`, overriding earlier entries for that key |
| Config.IndirectEntryReadsEnv | pkg/falcosidekick/config.go:62-67 | an entry `key:%NAME` stores the value of `NAME`, and changes nothing when that value is empty or unset |
| Config.MalformedEntryIgnored | pkg/falcosidekick/config.go:60-61 | an entry that does not split on ':' into exactly two pieces changes nothing |
| Config.ValueWithColonDropped | pkg/falcosidekick/config.go:60-61 | in particular, a value containing ':' is dropped together with its key |
| Config.ExtraLabelsList | pkg/falcosidekick/config.go:75-77 | at least one label results; no label contains a space or a comma; joined with ',' the labels give the input with its spaces removed |
| Normalizer.MergedFields | pkg/falcosidekick/handler.go:82-89 | with no custom fields the output fields are unchanged; otherwise the map (created if nil) has the union of the keys, each custom key holds its string value, and every other key keeps its value |
| Normalizer.MergeCustomFields | pkg/falcosidekick/handler.go:82-89 | the merge loop, over any iteration order, computes exactly the merged fields |
| Normalizer.RenderTemplates | pkg/falcosidekick/handler.go:109-125 | the rendering loop computes the templated fields for the given order of templates |
| Normalizer.TemplateOutcome | pkg/falcosidekick/handler.go:113-124 | a template that fails to parse leaves its key untouched; otherwise the key holds the executed output (whether or not execution failed), read over the fields as they stood before that template |
| Normalizer.RenameBrackets | pkg/falcosidekick/handler.go:151-158 | with an empty replacer or a nil map nothing changes; a key without '[' that no bracketed key is renamed onto keeps its value; for a non-empty replacer without '[', no key keeps a '[', every bracketed key is replaced by its renamed form, that form holds the value of a bracketed key renamed onto it, and no other key appears |
| Normalizer.NewFalcoPayload | pkg/falcosidekick/handler.go:71-166 | a decoding error exactly when the body does not decode; a panic exactly when, after the custom merge, the namespace or pod field holds a value that is neither nil nor a string; otherwise the decoded payload with the default source "syscalls" when its source is empty, the request id set, and custom merge, templates and bracket renaming applied in that order |
| Normalizer.PodLabelsAsWritten | pkg/falcosidekick/handler.go:97-107 | the as-written extraction panics exactly when the namespace or pod field holds a non-string, non-nil value; otherwise it returns what the checked extraction returns |
| Normalizer.PodLabelsAsWrittenPanics | pkg/falcosidekick/handler.go:97-107 | for any fields, a non-string, non-nil `k8s.ns.name` or `k8s.pod.name` value makes the extraction panic |
| Normalizer.NumericNamespacePanics | pkg/falcosidekick/handler.go:97-101 | the fields `{k8s.ns.name: 5}` make the extraction panic |
| Normalizer.PodLabels | pkg/falcosidekick/handler.go:97-107 | the checked extraction never fails: namespace and pod are the string values of their fields, and empty otherwise |
| Normalizer.ExtraLabels | pkg/falcosidekick/handler.go:137-149 | every extra label, with '.' replaced by '_', is present; no key is removed; keys that are not extra labels keep their values |
| Normalizer.PromLabels | pkg/falcosidekick/handler.go:127-149 | rule, priority, k8s_ns_name and k8s_pod_name are always present; hostname is present when it is set; every extra label is present; a base label (rule, priority, namespace, pod, hostname) holds the payload's value unless a label-safe custom field or an extra label writes over it, and hostname is absent when unset and not written over; a label-safe custom field that no extra label overrides holds its value; no other keys appear |
| Normalizer.BaseLabels | pkg/falcosidekick/handler.go:127-130 | the base labels hold rule, priority, namespace and pod, and the hostname exactly when it is non-empty |
| Forwarder.EventNameInjective | pkg/falcosidekick/handler.go:187 | two record names `fe-<hash>` are equal exactly when the hashes are |
| Forwarder.RecordLabels | pkg/falcosidekick/handler.go:210-222 | the record's labels are `k8s.ns.name`, `k8s.pod.name` and `k8s.node.name` only; the first two are present exactly when the field holds a string, with that string; the node label is present exactly when a node was found |
| Forwarder.CopyPodLabels | pkg/falcosidekick/handler.go:210-218 | the copy loop, over any iteration order, yields the namespace and pod labels |
| Forwarder.ForwardEffect | pkg/falcosidekick/handler.go:168-232 | a failed forward leaves the store unchanged; a marshal failure is an error; a successful forward stores exactly the built record under `fe-<hash>` and leaves every other record as it was; when marshalling works and no Get, Create or Patch of the record fails, the forward succeeds whatever the pod lookup found |
| Forwarder.ForwardEvent | pkg/falcosidekick/handler.go:168-232 | a pod lookup, then a marshal, then CreateOrPatch with fresh labels and spec; error and new store as in ForwardOutcome |
| ObjectStore.UpsertReplacesWholesale | pkg/falcosidekick/handler.go:224-230 | CreateOrPatch either fails and changes nothing, or leaves exactly the new record under its name (labels and spec replaced) and all other records as they were |
| ObjectStore.Store.CreateOrPatch | pkg/falcosidekick/handler.go:224-230 | Get; on NotFound, Create; on any other Get error, return it; otherwise Patch |
| Handler.CacheAfter | pkg/falcosidekick/handler.go:242-249 | after a forward that succeeds or hits AlreadyExists, the hash maps to the payload's time; after any other error the cache is unchanged; other hashes are never touched |
| Handler.RefreshWindow | pkg/falcosidekick/handler.go:236-243 | for any clock reading, a cached hash is forwarded again exactly when more than 10 minutes have passed since its cached time |
| Handler.BackdatedEventAlwaysForwarded | pkg/falcosidekick/handler.go:242-249 | a payload time more than 10 minutes in the past is cached, yet the same payload is forwarded again |
| Handler.Sidekick.MustForwardEvent | pkg/falcosidekick/handler.go:238-250 | forwards exactly when the hash is new or its entry is more than 10 minutes old; otherwise nothing changes; the store and cache afterwards are as in ForwardOutcome and CacheAfter |
| Handler.Sidekick.ServeHTTP | pkg/falcosidekick/handler.go:47-69 | a missing body is 400; GET returns the page of the as-written collector (one metric per grouping key that decodes), or 400 with the List error; a body that does not decode or fails Check is 400; a body on which newFalcoPayload panics gets no response; none of these changes the store or the cache; otherwise the normalized payload is forwarded as in MustForwardEvent |
| Metrics.GroupingKeyFormat | pkg/falcosidekick/metricshandler/falco.go:36-38 | the key is `N=<node>,NS=<ns>,P=<priority>,R=<rule>,POD=<pod>` |
| Metrics.ToCriteria | pkg/falcosidekick/metricshandler/falco.go:40-64 | the parse loop computes Decode: it fails on the first part that does not split on '=' into two pieces, later duplicates override earlier ones, and unknown keys are ignored |
| Metrics.DecodeFails | pkg/falcosidekick/metricshandler/falco.go:40-64 | decoding fails exactly when some comma-separated part does not split on '=' into two pieces |
| Metrics.DecodeLastWins | pkg/falcosidekick/metricshandler/falco.go:50-61 | each decoded field is the value of the last part carrying its key, and empty when no part carries it |
| Metrics.DecodeGroupingKey | pkg/falcosidekick/metricshandler/falco.go:36-64 | decoding the key of a tuple with no ',' or '=' in its fields gives the tuple back |
| Metrics.CommaInRuleIsDropped | pkg/falcosidekick/metricshandler/falco.go:36-64 | the key of a tuple whose rule contains a comma (and no '=' after it) does not decode, so its records are never reported |
| Metrics.GroupingKeyCollides | pkg/falcosidekick/metricshandler/falco.go:36-38 | two different tuples have the same key, so their records are counted together |
| Metrics.TallyItems | pkg/falcosidekick/metricshandler/falco.go:75-94 | the counting loop computes the tally over the listed records |
| Metrics.TallyCounts | pkg/falcosidekick/metricshandler/falco.go:75-94 | a key is in the tally exactly when some record has it, and its count is the number of those records |
| Metrics.TallyTotal | pkg/falcosidekick/metricshandler/falco.go:75-94 | the counts add up to the number of records that qualify (namespace, pod and node labels all non-empty) |
| Metrics.MetricFor | pkg/falcosidekick/metricshandler/falco.go:100-117 | the metric carries the five label keys `node_name, ns_name, priority, rule, pod_name`, the tuple's fields as values in that same order, and the count as its value |
| Metrics.EmitDecoded | pkg/falcosidekick/metricshandler/falco.go:96-119 | one metric per key that decodes, carrying that key's decoded fields and count; keys that do not decode are skipped, so there are at most as many metrics as keys |
| Metrics.EmitTuples | pkg/falcosidekick/metricshandler/falco.go:96-119 | for the tuple-keyed tally, exactly one metric per tuple (as many metrics as tuples), each carrying that tuple's fields and count |
| Metrics.CollectFalcoMetrics | pkg/falcosidekick/metricshandler/falco.go:66-122 | a List error is returned; otherwise the metrics are those emitted from the string-key tally of a listing of the store |
| Metrics.TallyEmitsCounts | pkg/falcosidekick/metricshandler/falco.go:66-122 | emitting a tuple-keyed tally gives one metric per tuple with records, valued at that tuple's count |
| Metrics.CollectByCriteria | pkg/falcosidekick/metricshandler/falco.go:66-122 | the corrected collector: a List error is returned; otherwise there is exactly one metric per distinct tuple among a listing of the store, valued at the number of its records |
| Cleaner.SweepOnlyDeletesExpired | pkg/cleaner/falcoevent_cleaner.go:46-54 | the sweep only removes records whose age reached the TTL, never changes a surviving record, and never reports NotFound |
| Cleaner.SweepWithoutFaults | pkg/cleaner/falcoevent_cleaner.go:46-54 | with no Delete failure other than NotFound, the sweep succeeds and removes exactly the listed expired names |
| Cleaner.SweepStopsAtHardFault | pkg/cleaner/falcoevent_cleaner.go:48-51 | the first Delete error other than NotFound is returned, and only the expired records listed before it are gone |
| Cleaner.YoungRecordsSurvive | pkg/cleaner/falcoevent_cleaner.go:47 | over a listing of the store, every record younger than the TTL survives unchanged |
| Cleaner.SweepRemovesExactlyExpired | pkg/cleaner/falcoevent_cleaner.go:40-55 | over a listing with no Delete failures, the store afterwards holds exactly the records younger than the TTL |
| Cleaner.SweepItems | pkg/cleaner/falcoevent_cleaner.go:46-54 | the delete loop computes SweepOutcome |
| Cleaner.CleanerFunc | pkg/cleaner/falcoevent_cleaner.go:40-55 | a List error is returned and nothing changes; otherwise the sweep runs over a listing of the store |
| Cleaner.RunCleaner | pkg/cleaner/falcoevent_cleaner.go:30-38 | one sweep per 30-minute tick, each a cleanerFunc run over a listing of the store as it then is, with its error logged and the ticker going on; records are only removed, never changed; every record younger than the TTL at the last tick survives; without List or Delete failures every sweep succeeds and the store ends holding exactly the records younger than the TTL at the last tick |
| Cleaner.ExpiredStaysExpired | pkg/cleaner/falcoevent_cleaner.go:47 | a record whose age has reached the TTL stays expired at every later tick |
| Controller.Reconcile | pkg/controllers/falcoevent/controller.go:38-54 | the result never requeues; a missing record is not an error; another Get error is returned; a record whose age reached the TTL is deleted and the Delete error returned |
| Controller.ReconcileDeletesIffExpired | pkg/controllers/falcoevent/controller.go:38-54 | without failures, the record is deleted exactly when it exists and its age reached the TTL, and no error is reported |
| Controller.ReconcileAgreesWithSweep | pkg/controllers/falcoevent/controller.go:38-54 | without failures, reconciling a record does what a sweep over that one record does |
| Controller.ReconcileReportsDeleteNotFound | pkg/controllers/falcoevent/controller.go:50-52 | a Delete that finds the record gone is an error for the reconciler but not for the sweep |
| Table.StatusOf | pkg/registry/falco/falcoevent/table.go:125-132 | the status is a Failure with code 406 and reason NotAcceptable |
| Table.PodCell | pkg/registry/falco/falcoevent/table.go:64-69 | the pod cell is non-empty exactly when both the namespace and pod labels are non-empty, and is then `<ns>/<pod>` |
| Table.PodCellSplits | pkg/registry/falco/falcoevent/table.go:64-69 | when neither label contains '/', the namespace and pod can be read back from the cell |
| Table.Elapsed | pkg/registry/falco/falcoevent/table.go:142-148 | the elapsed time is the distance between now and the timestamp, in either direction, saturated at the largest duration |
| Table.HumanReadableDateSymmetric | pkg/registry/falco/falcoevent/table.go:138-150 | the zero time prints `<unknown>`; a time as far in the future as another is in the past prints the same |
| Table.ConvertToTable | pkg/registry/falco/falcoevent/table.go:52-114 | a record gives one row; a list gives one row per item in order, or the 406 error when some item is not a record; anything else gives the error; the six columns appear unless NoHeaders is requested; the list metadata or the record's resource version is copied |

## Left out

- HTTP plumbing (response writers, status text formatting), logging and the Debug dump of the payload: they have no effect on state.
- Concurrency: the handler, the cleaner and the reconciler run concurrently on a shared store and an unsynchronised cache. The model is sequential. Interleavings appear only as injected store failures.
- What the foreign calls compute: the JSON decoder, `Check`, `HashKey`, `text/template`, `json.Marshal`, `uuid.New`, `duration.HumanDuration`, and the metav1 time and status-message formatting. They are parameters of the model.
- Metric values are Go `float64`. The model counts with natural numbers, which is exact because the counts are small integers.
- Normalizer.RenameBrackets: Go may visit an entry inserted during the rename loop. The model never does, which is one of the iteration behaviours Go allows. The "no key keeps a '['" part is stated only for a replacer without '['.
- Normalizer.ExtraLabels: the contract states which keys are present, not the value each extra label ends with.
- Normalizer.PromLabels: the labels are computed and described but never stored or exported, exactly as in the code. The value an extra label ends with is not stated (see Normalizer.ExtraLabels).
- Config.GetConfig: `Templatedfields`, `BracketReplacer` and `Prometheus.ExtraLabels` are never read from anywhere, so in a deployed server templates, bracket renaming and extra labels are inert. The model still covers them for any configuration.
- Handler.Sidekick.MustForwardEvent: the Go function returns nothing and only logs the error. The model returns whether it forwarded and the error, so that its contract can state them.
- Handler.Sidekick.ServeHTTP: GET uses the as-written collector `Metrics.CollectFalcoMetrics`, as the server does. The corrected `Metrics.CollectByCriteria` stands beside it as the fix of the second finding. Serialising the metric family to the response (pkg/falcosidekick/metricshandler/handler.go) is not part of this model.
- Handler.Sidekick: the template order is fixed once for the handler, whereas Go may iterate `Templatedfields` in a different order on every request. That matters only when templates read each other's output.
- Handler.Sidekick.ServeHTTP: a panic in the handler is modelled as the `Dropped` response with no state change. What net/http logs, and how it closes the connection, is not modelled.
- Cleaner.RunCleaner: the ticker is endless. The model runs a finite sequence of ticks.
- Table.ConvertToTable: the request-context lookup of the resource is a parameter.

## Findings

| source | as written | input that shows it | evidently intended | confidence | as-written member | corrected member |
|---|---|---|---|---|---|---|
| pkg/falcosidekick/handler.go:97-107 | `kn`/`kp` are read with the unchecked assertion `j.(string)` on any non-nil value | an alert whose `k8s.ns.name` output field is the number 5 makes the handler goroutine panic | take the value only when it is a string, as `forwardEvent` does at handler.go:213-216 | not executed | Normalizer.PodLabelsAsWritten, Normalizer.PodLabelsAsWrittenPanics, Normalizer.NumericNamespacePanics | Normalizer.PodLabels |
| pkg/falcosidekick/metricshandler/falco.go:36-64 | records are grouped by a formatted string that is split on ',' and '=' again | the rule `Read,Write` makes the key undecodable, so those records vanish from the metrics; the tuples ("a,NS=b","c",…) and ("a","b,NS=c",…) share one key | group by the tuple itself: one metric per distinct (node, ns, priority, rule, pod) with its count | not executed | Metrics.CollectFalcoMetrics, Metrics.CommaInRuleIsDropped, Metrics.GroupingKeyCollides | Metrics.CollectByCriteria |
