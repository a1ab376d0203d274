/**
 * The object store the server talks to through its controller-runtime
 * client, as a sequential map from record name to FalcoEvent. Transient
 * failures, stale caches and concurrent writers are modelled by injected
 * faults: an operation whose (verb, name) is in `faults` returns that error
 * and changes nothing; `listFault` does the same for List.
 */
module ObjectStore {
  import opened Wrappers
  import opened Api

  datatype Op = OpGet | OpCreate | OpPatch | OpDelete

  type Faults = map<(Op, string), StoreError>

  function GetOutcome(events: map<string, FalcoEvent>, faults: Faults, name: string): Result<FalcoEvent, StoreError>
  {
    if (OpGet, name) in faults then Err(faults[(OpGet, name)])
    else if name in events then Ok(events[name])
    else Err(NotFound)
  }

  function DeleteOutcome(events: map<string, FalcoEvent>, faults: Faults, name: string): (Option<StoreError>, map<string, FalcoEvent>)
  {
    if (OpDelete, name) in faults then (Some(faults[(OpDelete, name)]), events)
    else if name in events then (None, events - {name})
    else (Some(NotFound), events)
  }

  function CreateOutcome(events: map<string, FalcoEvent>, faults: Faults, obj: FalcoEvent): (Option<StoreError>, map<string, FalcoEvent>)
  {
    if (OpCreate, obj.name) in faults then (Some(faults[(OpCreate, obj.name)]), events)
    else if obj.name in events then (Some(AlreadyExists), events)
    else (None, events[obj.name := obj])
  }

  /** A merge patch from the current record to one whose labels and spec are those of `obj`. */
  function PatchOutcome(events: map<string, FalcoEvent>, faults: Faults, obj: FalcoEvent): (Option<StoreError>, map<string, FalcoEvent>)
  {
    if (OpPatch, obj.name) in faults then (Some(faults[(OpPatch, obj.name)]), events)
    else if obj.name !in events then (Some(NotFound), events)
    else (None, events[obj.name := events[obj.name].(labels := obj.labels, spec := obj.spec)])
  }

  /**
   * `CreateOrPatch` with the server's mutate function (which overwrites
   * Labels and Spec): Get; on NotFound, Create; on any other Get error,
   * fail; otherwise Patch.
   */
  function UpsertOutcome(events: map<string, FalcoEvent>, faults: Faults, obj: FalcoEvent): (Option<StoreError>, map<string, FalcoEvent>)
  {
    match GetOutcome(events, faults, obj.name)
    case Err(NotFound) => CreateOutcome(events, faults, obj)
    case Err(e) => (Some(e), events)
    case Ok(_) => PatchOutcome(events, faults, obj)
  }

  /**
   * An upsert either fails and changes nothing, or leaves exactly `obj`
   * under its name (fresh Labels and Spec wholesale, whatever was there
   * before) and every other record as it was.
   */
  lemma UpsertReplacesWholesale(events: map<string, FalcoEvent>, faults: Faults, obj: FalcoEvent)
    requires forall n | n in events :: events[n].name == n
    ensures var (err, after) := UpsertOutcome(events, faults, obj);
      && (err.Some? ==> after == events)
      && (err.None? ==> after == events[obj.name := obj])
  {
    var (err, after) := UpsertOutcome(events, faults, obj);
    if err.None? && obj.name in events && GetOutcome(events, faults, obj.name).Ok? {
      assert events[obj.name].(labels := obj.labels, spec := obj.spec) == obj;
    }
  }

  class Store {
    var events: map<string, FalcoEvent>
    /** The pods of the server's own namespace: pod name to `Spec.NodeName`. */
    var pods: map<string, string>
    var faults: Faults
    var listFault: Option<StoreError>

    /** Every record is stored under its own name. */
    ghost predicate Valid()
      reads this
    {
      forall n | n in events :: events[n].name == n
    }

    constructor (events0: map<string, FalcoEvent>, pods0: map<string, string>, faults0: Faults, listFault0: Option<StoreError>)
      requires forall n | n in events0 :: events0[n].name == n
      ensures Valid()
      ensures events == events0 && pods == pods0 && faults == faults0 && listFault == listFault0
    {
      events, pods, faults, listFault := events0, pods0, faults0, listFault0;
    }

    method Get(name: string) returns (r: Result<FalcoEvent, StoreError>)
      ensures r == GetOutcome(events, faults, name)
    {
      if (OpGet, name) in faults {
        r := Err(faults[(OpGet, name)]);
      } else if name in events {
        r := Ok(events[name]);
      } else {
        r := Err(NotFound);
      }
    }

    /** The node of the pod with this name; None for any lookup failure. */
    method GetPodNode(name: string) returns (node: Option<string>)
      ensures node == if name in pods then Some(pods[name]) else None
    {
      node := if name in pods then Some(pods[name]) else None;
    }

    /** List, in whatever order the store returns the records. */
    method List() returns (r: Result<seq<FalcoEvent>, StoreError>)
      requires Valid()
      ensures listFault.Some? ==> r == Err(listFault.value)
      ensures listFault.None? ==> r.Ok? && IsListing(r.value, events)
    {
      if listFault.Some? {
        return Err(listFault.value);
      }
      var items: seq<FalcoEvent> := [];
      var todo := events.Keys;
      while todo != {}
        invariant todo <= events.Keys
        invariant forall i | 0 <= i < |items| :: items[i].name in events && events[items[i].name] == items[i]
        invariant forall i | 0 <= i < |items| :: items[i].name !in todo
        invariant forall i, j | 0 <= i < j < |items| :: items[i].name != items[j].name
        invariant forall n | n in events && n !in todo :: exists i | 0 <= i < |items| :: items[i].name == n
        decreases todo
      {
        var n :| n in todo;
        ghost var before := items;
        items := items + [events[n]];
        forall m | m in events && m !in todo - {n}
          ensures exists i | 0 <= i < |items| :: items[i].name == m
        {
          if m == n {
            assert items[|items| - 1].name == m;
          } else {
            var i :| 0 <= i < |before| && before[i].name == m;
            assert items[i] == before[i];
          }
        }
        todo := todo - {n};
      }
      r := Ok(items);
    }

    method Delete(name: string) returns (err: Option<StoreError>)
      requires Valid()
      modifies this`events
      ensures Valid()
      ensures (err, events) == DeleteOutcome(old(events), faults, name)
    {
      if (OpDelete, name) in faults {
        err := Some(faults[(OpDelete, name)]);
      } else if name in events {
        events := events - {name};
        err := None;
      } else {
        err := Some(NotFound);
      }
    }

    method Create(obj: FalcoEvent) returns (err: Option<StoreError>)
      requires Valid()
      modifies this`events
      ensures Valid()
      ensures (err, events) == CreateOutcome(old(events), faults, obj)
    {
      if (OpCreate, obj.name) in faults {
        err := Some(faults[(OpCreate, obj.name)]);
      } else if obj.name in events {
        err := Some(AlreadyExists);
      } else {
        events := events[obj.name := obj];
        err := None;
      }
    }

    method Patch(obj: FalcoEvent) returns (err: Option<StoreError>)
      requires Valid()
      modifies this`events
      ensures Valid()
      ensures (err, events) == PatchOutcome(old(events), faults, obj)
    {
      if (OpPatch, obj.name) in faults {
        err := Some(faults[(OpPatch, obj.name)]);
      } else if obj.name !in events {
        err := Some(NotFound);
      } else {
        events := events[obj.name := events[obj.name].(labels := obj.labels, spec := obj.spec)];
        err := None;
      }
    }

    /** `cu.CreateOrPatch(ctx, kc, obj, mutate)` where mutate overwrites Labels and Spec. */
    method CreateOrPatch(obj: FalcoEvent) returns (err: Option<StoreError>)
      requires Valid()
      modifies this`events
      ensures Valid()
      ensures (err, events) == UpsertOutcome(old(events), faults, obj)
    {
      var cur := Get(obj.name);
      if cur.Err? && cur.error == NotFound {
        err := Create(obj);
      } else if cur.Err? {
        err := Some(cur.error);
      } else {
        err := Patch(obj);
      }
    }
  }
}
