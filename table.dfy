/**
 * The table view of FalcoEvent records (pkg/registry/falco/falcoevent/table.go):
 * one row per record with six cells, the optional column headers, and the
 * list metadata, or a 406 error for an object that is not a FalcoEvent.
 */
module Table {
  import opened Wrappers
  import opened Strings
  import opened Api

  datatype GroupResource = GroupResource(group: string, resource: string)

  /** The object handed to ConvertToTable: a record, a list of objects, or any other kind. */
  datatype RuntimeObject =
    | EventObject(event: FalcoEvent, resourceVersion: string)
    | EventList(items: seq<RuntimeObject>, resourceVersion: string, continueToken: string, remaining: Option<int>)
    | ForeignObject(kind: string)

  /** The `tableOptions` argument: a `*metav1.TableOptions`, or anything else (nil included). */
  datatype TableOptionsArg = TableOptions(noHeaders: bool) | NotTableOptions

  datatype Column = Column(name: string, kind: string, description: string)

  datatype Row = Row(cells: seq<string>, obj: FalcoEvent)

  datatype TableView = TableView(rows: seq<Row>, columns: seq<Column>, resourceVersion: string, continueToken: string, remaining: Option<int>)

  /** `errNotAcceptable`. */
  datatype NotAcceptable = NotAcceptable(resource: GroupResource)

  datatype Status = Status(status: string, code: int, reason: string)

  const Columns: seq<Column> := [
    Column("Last Seen", "string", ""), Column("Source", "string", ""), Column("Priority", "string", ""),
    Column("Node", "string", ""), Column("Pod", "string", ""), Column("Rule", "string", "")]

  /** `errNotAcceptable.Status`: a failure with HTTP code 406 (Not Acceptable). */
  function StatusOf(e: NotAcceptable): (s: Status)
    ensures s.code == 406 && s.reason == "NotAcceptable" && s.status == "Failure"
  {
    Status("Failure", 406, "NotAcceptable")
  }

  function LabelValue(labels: map<string, string>, key: string): string
  {
    if key in labels then labels[key] else ""
  }

  /** The Pod cell: `<namespace>/<pod>` when both labels are non-empty, otherwise empty. */
  function PodCell(labels: map<string, string>): (cell: string)
    ensures cell != "" <==> LabelValue(labels, NsLabel) != "" && LabelValue(labels, PodLabel) != ""
    ensures cell != "" ==> cell == LabelValue(labels, NsLabel) + "/" + LabelValue(labels, PodLabel)
  {
    var podNS, podName := LabelValue(labels, NsLabel), LabelValue(labels, PodLabel);
    if podNS != "" && podName != "" then podNS + "/" + podName else ""
  }

  /** Kubernetes names hold no '/', so a non-empty Pod cell splits back into namespace and pod. */
  lemma PodCellSplits(labels: map<string, string>)
    requires '/' !in LabelValue(labels, NsLabel) && '/' !in LabelValue(labels, PodLabel)
    requires PodCell(labels) != ""
    ensures Split(PodCell(labels), '/') == [LabelValue(labels, NsLabel), LabelValue(labels, PodLabel)]
  {
    var ns, pod := LabelValue(labels, NsLabel), LabelValue(labels, PodLabel);
    assert PodCell(labels) == ns + ['/'] + pod;
    SplitPeel(ns, '/', pod);
    SplitWithoutSeparator(pod, '/');
  }

  function Abs(x: int): nat
  {
    if x < 0 then -x else x
  }

  /**
   * The duration `ConvertToHumanReadableDateType` renders: `now.Sub(t)` when
   * `now` is after `t`, `t.Sub(now)` otherwise. It is `|now - t|`, saturated
   * to the largest Duration.
   */
  function Elapsed(t: Time, now: Time): (d: int)
    ensures d == if Abs(now - t) > MaxDuration then MaxDuration else Abs(now - t)
  {
    if now > t then Sub(now, t) else Sub(t, now)
  }

  /** `ConvertToHumanReadableDateType`; `human` is `duration.HumanDuration` and `now` the clock. */
  function HumanReadableDate(t: Time, now: Time, human: int -> string): string
  {
    if t == 0 then "<unknown>" else human(Elapsed(t, now))
  }

  /** A zero time renders as "<unknown>"; otherwise an event `d` in the past renders as one `d` in the future. */
  lemma HumanReadableDateSymmetric(now: Time, d: int, human: int -> string)
    requires now - d != 0 && now + d != 0
    ensures HumanReadableDate(0, now, human) == "<unknown>"
    ensures HumanReadableDate(now - d, now, human) == HumanReadableDate(now + d, now, human)
  {
    assert Elapsed(now - d, now) == Elapsed(now + d, now);
  }

  /** The row for a record: time, source, priority, node, pod and rule, in that order. */
  function RowFor(e: FalcoEvent, now: Time, human: int -> string): Row
  {
    Row([HumanReadableDate(e.spec.time, now, human), e.spec.source, e.spec.priority, e.spec.nodename, PodCell(e.labels), e.spec.rule], e)
  }

  /** The resource the error names: the request's, when the context carries request information. */
  function ErrorResource(defaultResource: GroupResource, info: Option<GroupResource>): GroupResource
  {
    if info.Some? then info.value else defaultResource
  }

  function HeadersFor(options: TableOptionsArg): seq<Column>
  {
    if options.TableOptions? && options.noHeaders then [] else Columns
  }

  /**
   * `ConvertToTable`. A single record yields its one row; a list yields one
   * row per item in list order, or the 406 error as soon as an item is not a
   * record; any other object yields the error. The six column definitions are
   * present unless the options are TableOptions with NoHeaders; the list
   * metadata is copied from a list, the resource version from a record.
   */
  method ConvertToTable(obj: RuntimeObject, options: TableOptionsArg, now: Time, human: int -> string,
                        defaultResource: GroupResource, info: Option<GroupResource>)
    returns (r: Result<TableView, NotAcceptable>)
    ensures r.Err? ==> r.error == NotAcceptable(ErrorResource(defaultResource, info))
    ensures r.Ok? ==> r.value.columns == HeadersFor(options)
    ensures obj.ForeignObject? ==> r.Err?
    ensures obj.EventObject? ==>
      && r.Ok? && r.value.rows == [RowFor(obj.event, now, human)]
      && r.value.resourceVersion == obj.resourceVersion && r.value.continueToken == "" && r.value.remaining == None
    ensures obj.EventList? ==> (r.Err? <==> exists i | 0 <= i < |obj.items| :: !obj.items[i].EventObject?)
    ensures obj.EventList? && r.Ok? ==>
      && |r.value.rows| == |obj.items|
      && (forall i | 0 <= i < |obj.items| :: obj.items[i].EventObject? && r.value.rows[i] == RowFor(obj.items[i].event, now, human))
      && r.value.resourceVersion == obj.resourceVersion
      && r.value.continueToken == obj.continueToken
      && r.value.remaining == obj.remaining
  {
    var rows: seq<Row> := [];
    var resource := ErrorResource(defaultResource, info);
    match obj {
      case ForeignObject(_) =>
        return Err(NotAcceptable(resource));
      case EventObject(e, _) =>
        rows := [RowFor(e, now, human)];
      case EventList(items, _, _, _) =>
        for i := 0 to |items|
          invariant |rows| == i
          invariant forall j | 0 <= j < i :: items[j].EventObject? && rows[j] == RowFor(items[j].event, now, human)
        {
          if !items[i].EventObject? {
            return Err(NotAcceptable(resource));
          }
          rows := rows + [RowFor(items[i].event, now, human)];
        }
    }
    var view := TableView(rows, [], "", "", None);
    if obj.EventList? {
      view := view.(resourceVersion := obj.resourceVersion, continueToken := obj.continueToken, remaining := obj.remaining);
    } else {
      view := view.(resourceVersion := obj.resourceVersion);
    }
    if !(options.TableOptions? && options.noHeaders) {
      view := view.(columns := Columns);
    }
    r := Ok(view);
  }
}
