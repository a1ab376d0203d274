/**
 * The metrics page (pkg/falcosidekick/metricshandler/falco.go): stored
 * FalcoEvent records are counted per (node, namespace, priority, rule, pod)
 * tuple, with the tuple packed into a string key by `criteria.toString` and
 * unpacked again by `toCriteria` before the metric is emitted.
 */
module Metrics {
  import opened Wrappers
  import opened Strings
  import opened Api
  import opened ObjectStore

  datatype Criteria = Criteria(node: string, ns: string, priority: string, rule: string, pod: string)

  const NoCriteria: Criteria := Criteria("", "", "", "", "")

  function KeyParts(c: Criteria): seq<string>
  {
    ["N=" + c.node, "NS=" + c.ns, "P=" + c.priority, "R=" + c.rule, "POD=" + c.pod]
  }

  /** `criteria.toString`: the five `key=value` parts joined by ','. */
  function GroupingKey(c: Criteria): string
  {
    Join(KeyParts(c), ',')
  }

  /** The key is exactly `N=<node>,NS=<ns>,P=<priority>,R=<rule>,POD=<pod>`. */
  lemma GroupingKeyFormat(c: Criteria)
    ensures GroupingKey(c) == "N=" + c.node + ",NS=" + c.ns + ",P=" + c.priority + ",R=" + c.rule + ",POD=" + c.pod
  {
    var p := KeyParts(c);
    JoinCons(p[3], [p[4]], ',');
    JoinCons(p[2], p[3..], ',');
    JoinCons(p[1], p[2..], ',');
    JoinCons(p[0], p[1..], ',');
    assert [p[3]] + [p[4]] == p[3..];
    assert [p[2]] + p[3..] == p[2..];
    assert [p[1]] + p[2..] == p[1..];
    assert [p[0]] + p[1..] == p;
  }

  /** The `switch kv[0]` of `toCriteria`: an unrecognised key changes nothing. */
  function Assign(c: Criteria, key: string, value: string): Criteria
  {
    if key == "N" then c.(node := value)
    else if key == "NS" then c.(ns := value)
    else if key == "P" then c.(priority := value)
    else if key == "R" then c.(rule := value)
    else if key == "POD" then c.(pod := value)
    else c
  }

  /** The comma-separated parts decoded in order, failing on the first that is not `k=v`. */
  function DecodeParts(parts: seq<string>, c: Criteria): Option<Criteria>
    decreases |parts|
  {
    if parts == [] then Some(c)
    else
      var kv := Split(parts[0], '=');
      if |kv| != 2 then None else DecodeParts(parts[1..], Assign(c, kv[0], kv[1]))
  }

  /** What `toCriteria` returns; None is its nil. */
  function Decode(s: string): Option<Criteria>
  {
    DecodeParts(Split(s, ','), NoCriteria)
  }

  /** `toCriteria`. */
  method ToCriteria(str: string) returns (r: Option<Criteria>)
    ensures r == Decode(str)
  {
    var s := Split(str, ',');
    var c := NoCriteria;
    for i := 0 to |s|
      invariant DecodeParts(s[i..], c) == Decode(str)
    {
      assert s[i..][1..] == s[i + 1..];
      var kv := Split(s[i], '=');
      if |kv| != 2 {
        return None;
      }
      if kv[0] == "N" {
        c := c.(node := kv[1]);
      } else if kv[0] == "NS" {
        c := c.(ns := kv[1]);
      } else if kv[0] == "P" {
        c := c.(priority := kv[1]);
      } else if kv[0] == "R" {
        c := c.(rule := kv[1]);
      } else if kv[0] == "POD" {
        c := c.(pod := kv[1]);
      }
    }
    assert s[|s|..] == [];
    r := Some(c);
  }

  /** `prefix + "=" + v` splits on '=' into exactly the prefix and the value when neither holds '='. */
  lemma SplitKeyValue(prefix: string, v: string)
    requires '=' !in prefix && '=' !in v
    ensures Split(prefix + "=" + v, '=') == [prefix, v]
  {
    assert prefix + "=" + v == prefix + ['='] + v;
    SplitPeel(prefix, '=', v);
    SplitWithoutSeparator(v, '=');
  }

  /** One well-formed part decoded. */
  lemma DecodePartsCons(parts: seq<string>, c: Criteria, key: string, value: string)
    requires parts != [] && Split(parts[0], '=') == [key, value]
    ensures DecodeParts(parts, c) == DecodeParts(parts[1..], Assign(c, key, value))
  {
  }

  /** The five parts of a tuple whose fields hold no '=' decode back to it. */
  lemma DecodeKeyParts(c: Criteria)
    requires '=' !in c.node && '=' !in c.ns && '=' !in c.priority && '=' !in c.rule && '=' !in c.pod
    ensures DecodeParts(KeyParts(c), NoCriteria) == Some(c)
  {
    var p := KeyParts(c);
    SplitKeyValue("N", c.node);
    SplitKeyValue("NS", c.ns);
    SplitKeyValue("P", c.priority);
    SplitKeyValue("R", c.rule);
    SplitKeyValue("POD", c.pod);
    var c1 := NoCriteria.(node := c.node);
    var c2 := c1.(ns := c.ns);
    var c3 := c2.(priority := c.priority);
    var c4 := c3.(rule := c.rule);
    assert p[1..][1..] == p[2..] && p[2..][1..] == p[3..] && p[3..][1..] == p[4..] && p[4..][1..] == [];
    assert p[0] == "N" + "=" + c.node;
    DecodePartsCons(p, NoCriteria, "N", c.node);
    assert p[1..][0] == "NS" + "=" + c.ns;
    DecodePartsCons(p[1..], c1, "NS", c.ns);
    assert p[2..][0] == "P" + "=" + c.priority;
    DecodePartsCons(p[2..], c2, "P", c.priority);
    assert p[3..][0] == "R" + "=" + c.rule;
    DecodePartsCons(p[3..], c3, "R", c.rule);
    assert p[4..][0] == "POD" + "=" + c.pod;
    DecodePartsCons(p[4..], c4, "POD", c.pod);
  }

  /** A tuple whose fields hold neither ',' nor '=' survives the key round trip, empty fields included. */
  lemma DecodeGroupingKey(c: Criteria)
    requires ',' !in c.node && ',' !in c.ns && ',' !in c.priority && ',' !in c.rule && ',' !in c.pod
    requires '=' !in c.node && '=' !in c.ns && '=' !in c.priority && '=' !in c.rule && '=' !in c.pod
    ensures Decode(GroupingKey(c)) == Some(c)
  {
    var p := KeyParts(c);
    assert forall i | 0 <= i < |p| :: ',' !in p[i];
    SplitJoin(p, ',');
    DecodeKeyParts(c);
  }

  /** Some part does not split on '=' into exactly two pieces. */
  predicate HasMalformedPart(parts: seq<string>)
  {
    exists i | 0 <= i < |parts| :: |Split(parts[i], '=')| != 2
  }

  /** Decoding fails exactly when some part does not split on '=' into two pieces. */
  lemma {:induction false} DecodePartsFails(parts: seq<string>, c: Criteria)
    ensures DecodeParts(parts, c).None? <==> HasMalformedPart(parts)
    decreases |parts|
  {
    if parts != [] {
      var kv := Split(parts[0], '=');
      if |kv| == 2 {
        DecodePartsFails(parts[1..], Assign(c, kv[0], kv[1]));
        if HasMalformedPart(parts) {
          var i :| 0 <= i < |parts| && |Split(parts[i], '=')| != 2;
          assert parts[1..][i - 1] == parts[i];
        }
        if HasMalformedPart(parts[1..]) {
          var i :| 0 <= i < |parts[1..]| && |Split(parts[1..][i], '=')| != 2;
          assert parts[i + 1] == parts[1..][i];
        }
      } else {
        assert |Split(parts[0], '=')| != 2;
      }
    }
  }

  /** `toCriteria` returns nil exactly when some comma-separated part is not `k=v`. */
  lemma DecodeFails(s: string)
    ensures Decode(s).None? <==> HasMalformedPart(Split(s, ','))
  {
    DecodePartsFails(Split(s, ','), NoCriteria);
  }

  /** The value the last well-formed part with key `key` carries, or `default` when there is none. */
  function LastValue(parts: seq<string>, key: string, default: string): string
    decreases |parts|
  {
    if parts == [] then default
    else
      var kv := Split(parts[|parts| - 1], '=');
      if |kv| == 2 && kv[0] == key then kv[1] else LastValue(parts[..|parts| - 1], key, default)
  }

  lemma {:induction false} DecodePartsSnoc(parts: seq<string>, p: string, c: Criteria)
    ensures DecodeParts(parts + [p], c) ==
      match DecodeParts(parts, c)
      case None => None
      case Some(c') => var kv := Split(p, '='); if |kv| != 2 then None else Some(Assign(c', kv[0], kv[1]))
    decreases |parts|
  {
    if parts == [] {
      assert [p][1..] == [];
    } else {
      var kv := Split(parts[0], '=');
      assert (parts + [p])[1..] == parts[1..] + [p];
      if |kv| == 2 {
        DecodePartsSnoc(parts[1..], p, Assign(c, kv[0], kv[1]));
      }
    }
  }

  /**
   * Each field of a decoded tuple is the value of the last part naming it:
   * later duplicates overwrite earlier ones and parts with other keys are ignored.
   */
  lemma {:induction false} DecodePartsLastWins(parts: seq<string>, c: Criteria)
    requires DecodeParts(parts, c).Some?
    ensures DecodeParts(parts, c).value == Criteria(
      LastValue(parts, "N", c.node), LastValue(parts, "NS", c.ns), LastValue(parts, "P", c.priority),
      LastValue(parts, "R", c.rule), LastValue(parts, "POD", c.pod))
    decreases |parts|
  {
    if parts != [] {
      var init, p := parts[..|parts| - 1], parts[|parts| - 1];
      assert parts == init + [p];
      DecodePartsSnoc(init, p, c);
      DecodePartsLastWins(init, c);
    }
  }

  lemma DecodeLastWins(s: string)
    requires Decode(s).Some?
    ensures var parts := Split(s, ',');
      Decode(s).value == Criteria(LastValue(parts, "N", ""), LastValue(parts, "NS", ""), LastValue(parts, "P", ""),
                                  LastValue(parts, "R", ""), LastValue(parts, "POD", ""))
  {
    DecodePartsLastWins(Split(s, ','), NoCriteria);
  }

  // ----- Counting -----------------------------------------------------------

  /** `fe.GetLabels()[key]`: "" when absent. */
  function Label(e: FalcoEvent, key: string): string
  {
    if key in e.labels then e.labels[key] else ""
  }

  /** A record is counted only with non-empty pod, namespace and node labels. */
  predicate Qualifies(e: FalcoEvent)
  {
    Label(e, PodLabel) != "" && Label(e, NsLabel) != "" && Label(e, NodeLabel) != ""
  }

  function CriteriaOf(e: FalcoEvent): Criteria
  {
    Criteria(Label(e, NodeLabel), Label(e, NsLabel), e.spec.priority, e.spec.rule, Label(e, PodLabel))
  }

  /** The key `collectFalcoMetrics` counts a record under: its encoded tuple. */
  function StringKey(e: FalcoEvent): Option<string>
  {
    if Qualifies(e) then Some(GroupingKey(CriteriaOf(e))) else None
  }

  /** The key the corrected collector counts a record under: the tuple itself. */
  function TupleKey(e: FalcoEvent): Option<Criteria>
  {
    if Qualifies(e) then Some(CriteriaOf(e)) else None
  }

  /** `mp[k]++` on a Go map, where a missing key reads as 0. */
  function Bump<K(==)>(m: map<K, nat>, k: K): map<K, nat>
  {
    m[k := (if k in m then m[k] else 0) + 1]
  }

  /** The map after the counting loop has seen `items`. */
  function Tally<K(==)>(items: seq<FalcoEvent>, keyOf: FalcoEvent -> Option<K>): map<K, nat>
    decreases |items|
  {
    if items == [] then map[]
    else
      var m := Tally(items[..|items| - 1], keyOf);
      match keyOf(items[|items| - 1])
      case None => m
      case Some(k) => Bump(m, k)
  }

  /** The positions of `items` that count under `k`. */
  function Matching<K(==)>(items: seq<FalcoEvent>, keyOf: FalcoEvent -> Option<K>, k: K): set<int>
  {
    set i | 0 <= i < |items| && keyOf(items[i]) == Some(k)
  }

  /** How many of `items` count under `k`. */
  function Count<K(==)>(items: seq<FalcoEvent>, keyOf: FalcoEvent -> Option<K>, k: K): nat
  {
    |Matching(items, keyOf, k)|
  }

  /** The positions of `items` that are counted at all. */
  function Qualifying<K>(items: seq<FalcoEvent>, keyOf: FalcoEvent -> Option<K>): set<int>
  {
    set i | 0 <= i < |items| && keyOf(items[i]).Some?
  }

  /** How many of `items` are counted at all. */
  function Counted<K>(items: seq<FalcoEvent>, keyOf: FalcoEvent -> Option<K>): nat
  {
    |Qualifying(items, keyOf)|
  }

  /** The records of `items + [e]` counted under `k` are those of `items`, plus `e` when it counts there. */
  lemma CountSnoc<K>(items: seq<FalcoEvent>, keyOf: FalcoEvent -> Option<K>, e: FalcoEvent, k: K)
    ensures Count(items + [e], keyOf, k) == Count(items, keyOf, k) + (if keyOf(e) == Some(k) then 1 else 0)
  {
    var s := items + [e];
    var a := set i | 0 <= i < |items| && keyOf(items[i]) == Some(k);
    var a' := set i | 0 <= i < |s| && keyOf(s[i]) == Some(k);
    assert a' == if keyOf(e) == Some(k) then a + {|items|} else a;
  }

  lemma CountedSnoc<K>(items: seq<FalcoEvent>, keyOf: FalcoEvent -> Option<K>, e: FalcoEvent)
    ensures Counted(items + [e], keyOf) == Counted(items, keyOf) + (if keyOf(e).Some? then 1 else 0)
  {
    var s := items + [e];
    var b := set i | 0 <= i < |items| && keyOf(items[i]).Some?;
    var b' := set i | 0 <= i < |s| && keyOf(s[i]).Some?;
    assert b' == if keyOf(e).Some? then b + {|items|} else b;
  }

  /** The counting loop's map holds, for every key, exactly the number of records counted under it. */
  lemma {:induction false} TallyCounts<K>(items: seq<FalcoEvent>, keyOf: FalcoEvent -> Option<K>, k: K)
    ensures k in Tally(items, keyOf) <==> Count(items, keyOf, k) > 0
    ensures k in Tally(items, keyOf) ==> Tally(items, keyOf)[k] == Count(items, keyOf, k)
    decreases |items|
  {
    if items == [] {
      assert Matching(items, keyOf, k) == {};
    } else {
      var init, e := items[..|items| - 1], items[|items| - 1];
      assert items == init + [e];
      TallyCounts(init, keyOf, k);
      CountSnoc(init, keyOf, e, k);
    }
  }

  ghost function SumValues<K>(m: map<K, nat>): nat
    decreases |m|
  {
    if m == map[] then 0
    else
      var k :| k in m;
      m[k] + SumValues(m - {k})
  }

  /** The sum does not depend on the key the definition happens to pick. */
  lemma {:induction false} SumValuesRemove<K>(m: map<K, nat>, k: K)
    requires k in m
    ensures SumValues(m) == m[k] + SumValues(m - {k})
    decreases |m|
  {
    var k' :| k' in m && SumValues(m) == m[k'] + SumValues(m - {k'});
    if k' != k {
      SumValuesRemove(m - {k'}, k);
      SumValuesRemove(m - {k}, k');
      assert m - {k'} - {k} == m - {k} - {k'};
    }
  }

  lemma SumValuesBump<K>(m: map<K, nat>, k: K)
    ensures SumValues(Bump(m, k)) == SumValues(m) + 1
  {
    SumValuesRemove(Bump(m, k), k);
    assert Bump(m, k) - {k} == m - {k};
    if k in m {
      SumValuesRemove(m, k);
    } else {
      assert m - {k} == m;
    }
  }

  /** The counts add up to the number of records counted. */
  lemma {:induction false} TallyTotal<K>(items: seq<FalcoEvent>, keyOf: FalcoEvent -> Option<K>)
    ensures SumValues(Tally(items, keyOf)) == Counted(items, keyOf)
    decreases |items|
  {
    if items == [] {
      assert Qualifying(items, keyOf) == {};
    } else {
      var init, e := items[..|items| - 1], items[|items| - 1];
      assert items == init + [e];
      TallyTotal(init, keyOf);
      CountedSnoc(init, keyOf, e);
      if keyOf(e).Some? {
        SumValuesBump(Tally(init, keyOf), keyOf(e).value);
      }
    }
  }

  /** The first loop of `collectFalcoMetrics`, over the listed items in order. */
  method TallyItems<K(==)>(items: seq<FalcoEvent>, keyOf: FalcoEvent -> Option<K>) returns (mp: map<K, nat>)
    ensures mp == Tally(items, keyOf)
  {
    mp := map[];
    for i := 0 to |items|
      invariant mp == Tally(items[..i], keyOf)
    {
      assert items[..i + 1][..i] == items[..i];
      var k := keyOf(items[i]);
      if k.None? {
        continue;
      }
      mp := Bump(mp, k.value);
    }
    assert items[..|items|] == items;
  }

  // ----- Emission -----------------------------------------------------------

  datatype Metric = Metric(labelKeys: seq<string>, labelValues: seq<string>, value: nat)

  const LabelKeys: seq<string> := ["node_name", "ns_name", "priority", "rule", "pod_name"]

  function MetricFor(c: Criteria, n: nat): (m: Metric)
    ensures m.labelKeys == LabelKeys && m.value == n
    ensures |m.labelValues| == |m.labelKeys|
    ensures m.labelValues == [c.node, c.ns, c.priority, c.rule, c.pod]
  {
    Metric(LabelKeys, [c.node, c.ns, c.priority, c.rule, c.pod], n)
  }

  /** `ms` holds one metric per key of `mp` that decodes, in the order `visited` the keys were met. */
  ghost predicate EmitsDecoded(mp: map<string, nat>, visited: seq<string>, ms: seq<Metric>)
  {
    && |visited| == |ms|
    && (forall i, j | 0 <= i < j < |visited| :: visited[i] != visited[j])
    && (forall k | k in mp && Decode(k).Some? :: k in visited)
    && (forall j | 0 <= j < |visited| ::
          visited[j] in mp && Decode(visited[j]).Some? && ms[j] == MetricFor(Decode(visited[j]).value, mp[visited[j]]))
  }

  /** `m` is the metric of some key of `mp` that decodes. */
  predicate IsDecodedMetric(mp: map<string, nat>, m: Metric)
  {
    exists k | k in mp && Decode(k).Some? :: m == MetricFor(Decode(k).value, mp[k])
  }

  /** Every metric is that of a key of `mp` that decodes, and every such key has its metric. */
  predicate DecodedMetric(mp: map<string, nat>, ms: seq<Metric>)
  {
    && (forall j | 0 <= j < |ms| :: IsDecodedMetric(mp, ms[j]))
    && (forall k | k in mp && Decode(k).Some? :: exists j | 0 <= j < |ms| :: ms[j] == MetricFor(Decode(k).value, mp[k]))
  }

  lemma DecodedMetrics(mp: map<string, nat>, visited: seq<string>, ms: seq<Metric>)
    requires EmitsDecoded(mp, visited, ms)
    ensures DecodedMetric(mp, ms)
  {
    forall j | 0 <= j < |ms|
      ensures IsDecodedMetric(mp, ms[j])
    {
      var k := visited[j];
      assert k in mp && Decode(k).Some? && ms[j] == MetricFor(Decode(k).value, mp[k]);
    }
    forall k | k in mp && Decode(k).Some?
      ensures exists j | 0 <= j < |ms| :: ms[j] == MetricFor(Decode(k).value, mp[k])
    {
      var j :| 0 <= j < |visited| && visited[j] == k;
      assert ms[j] == MetricFor(Decode(k).value, mp[k]);
    }
  }

  /** The second loop of `collectFalcoMetrics`: keys that do not decode are skipped. */
  method EmitDecoded(mp: map<string, nat>) returns (ms: seq<Metric>, ghost visited: seq<string>)
    ensures EmitsDecoded(mp, visited, ms)
    ensures |ms| <= |mp|
    ensures DecodedMetric(mp, ms)
  {
    ms, visited := [], [];
    var todo := mp.Keys;
    while todo != {}
      invariant todo <= mp.Keys
      invariant |visited| == |ms|
      invariant |ms| + |todo| <= |mp|
      invariant forall i, j | 0 <= i < j < |visited| :: visited[i] != visited[j]
      invariant forall k | k in mp && k !in todo && Decode(k).Some? :: k in visited
      invariant forall j | 0 <= j < |visited| ::
        visited[j] in mp && visited[j] !in todo && Decode(visited[j]).Some? && ms[j] == MetricFor(Decode(visited[j]).value, mp[visited[j]])
      decreases todo
    {
      var l :| l in todo;
      todo := todo - {l};
      var c := ToCriteria(l);
      if c.None? {
        continue;
      }
      ms := ms + [MetricFor(c.value, mp[l])];
      visited := visited + [l];
    }
    DecodedMetrics(mp, visited, ms);
  }

  /**
   * `collectFalcoMetrics`: a List error is returned and nothing is emitted;
   * otherwise the listed records are counted per encoded key and one metric
   * is emitted per key that decodes.
   */
  method CollectFalcoMetrics(kc: Store) returns (r: Result<seq<Metric>, StoreError>, ghost listed: seq<FalcoEvent>, ghost visited: seq<string>)
    requires kc.Valid()
    ensures kc.listFault.Some? <==> r.Err?
    ensures kc.listFault.Some? ==> r == Err(kc.listFault.value)
    ensures r.Ok? ==> IsListing(listed, kc.events) && EmitsDecoded(Tally(listed, StringKey), visited, r.value)
  {
    listed, visited := [], [];
    var items := kc.List();
    if items.Err? {
      return Err(items.error), listed, visited;
    }
    listed := items.value;
    var mp := TallyItems(items.value, StringKey);
    var ms;
    ms, visited := EmitDecoded(mp);
    r := Ok(ms);
  }

  /** A ',' inside the fourth of five parts makes the joined text that of six parts. */
  lemma JoinCommaInFourth(a0: string, a1: string, a2: string, x: string, y: string, a4: string)
    ensures Join([a0, a1, a2, x + [','] + y, a4], ',') == Join([a0, a1, a2, x, y, a4], ',')
  {
    var p := [a0, a1, a2, x + [','] + y, a4];
    var q := [a0, a1, a2, x, y, a4];
    JoinCons(p[3], [p[4]], ',');
    JoinCons(p[2], p[3..], ',');
    JoinCons(p[1], p[2..], ',');
    JoinCons(p[0], p[1..], ',');
    assert [p[3]] + [p[4]] == p[3..] && [p[2]] + p[3..] == p[2..] && [p[1]] + p[2..] == p[1..] && [p[0]] + p[1..] == p;
    JoinCons(q[4], [q[5]], ',');
    JoinCons(q[3], q[4..], ',');
    JoinCons(q[2], q[3..], ',');
    JoinCons(q[1], q[2..], ',');
    JoinCons(q[0], q[1..], ',');
    assert [q[4]] + [q[5]] == q[4..] && [q[3]] + q[4..] == q[3..] && [q[2]] + q[3..] == q[2..];
    assert [q[1]] + q[2..] == q[1..] && [q[0]] + q[1..] == q;
  }

  /**
   * A rule name holding ',' whose last comma-separated piece has no '=' makes
   * the key undecodable, so the records counted under it never reach the page.
   */
  lemma CommaInRuleIsDropped(c: Criteria, x: string, y: string)
    requires c.rule == x + [','] + y
    requires ',' !in c.node && ',' !in c.ns && ',' !in c.priority && ',' !in x && ',' !in y && ',' !in c.pod
    requires '=' !in y
    ensures Decode(GroupingKey(c)) == None
  {
    assert "R=" + c.rule == ("R=" + x) + [','] + y;
    JoinCommaInFourth("N=" + c.node, "NS=" + c.ns, "P=" + c.priority, "R=" + x, y, "POD=" + c.pod);
    var parts := ["N=" + c.node, "NS=" + c.ns, "P=" + c.priority, "R=" + x, y, "POD=" + c.pod];
    assert forall i | 0 <= i < |parts| :: ',' !in parts[i];
    SplitJoin(parts, ',');
    SplitWithoutSeparator(y, '=');
    assert |Split(parts[4], '=')| != 2;
    DecodeFails(GroupingKey(c));
  }

  /** The rule "Read,Write" is such a name. */
  lemma RuleWithCommaIsDropped()
    ensures Decode(GroupingKey(Criteria("node-1", "default", "Warning", "Read,Write", "web"))) == None
  {
    CommaInRuleIsDropped(Criteria("node-1", "default", "Warning", "Read,Write", "web"), "Read", "Write");
  }

  /** Two different tuples share one key, so their records are counted as one series. */
  lemma GroupingKeyCollides()
    ensures var a, b := Criteria("a,NS=b", "c", "p", "r", "q"), Criteria("a", "b,NS=c", "p", "r", "q");
      a != b && GroupingKey(a) == GroupingKey(b)
  {
    var a, b := Criteria("a,NS=b", "c", "p", "r", "q"), Criteria("a", "b,NS=c", "p", "r", "q");
    GroupingKeyFormat(a);
    GroupingKeyFormat(b);
    assert "N=" + a.node + ",NS=" + a.ns == "N=" + b.node + ",NS=" + b.ns;
  }

  // ----- Corrected collector --------------------------------------------------

  /** `ms` holds exactly one metric per tuple with records, valued at that tuple's count. */
  ghost predicate EmitsCounts(items: seq<FalcoEvent>, visited: seq<Criteria>, ms: seq<Metric>)
  {
    && |visited| == |ms|
    && (forall i, j | 0 <= i < j < |visited| :: visited[i] != visited[j])
    && (forall j | 0 <= j < |visited| ::
          Count(items, TupleKey, visited[j]) > 0 && ms[j] == MetricFor(visited[j], Count(items, TupleKey, visited[j])))
    && (forall c | Count(items, TupleKey, c) > 0 :: c in visited)
  }

  /** `ms` holds one metric per key of `mp`, in the order `visited` the keys were met. */
  ghost predicate EmitsAll(mp: map<Criteria, nat>, visited: seq<Criteria>, ms: seq<Metric>)
  {
    && |visited| == |ms|
    && (forall i, j | 0 <= i < j < |visited| :: visited[i] != visited[j])
    && (forall c | c in mp :: c in visited)
    && (forall j | 0 <= j < |visited| :: visited[j] in mp && ms[j] == MetricFor(visited[j], mp[visited[j]]))
  }

  /** `m` is the metric of some key of `mp`. */
  predicate IsTupleMetric(mp: map<Criteria, nat>, m: Metric)
  {
    exists c | c in mp :: m == MetricFor(c, mp[c])
  }

  /** Every metric is that of a key of `mp`, and every key has its metric. */
  predicate TupleMetric(mp: map<Criteria, nat>, ms: seq<Metric>)
  {
    && (forall j | 0 <= j < |ms| :: IsTupleMetric(mp, ms[j]))
    && (forall c | c in mp :: exists j | 0 <= j < |ms| :: ms[j] == MetricFor(c, mp[c]))
  }

  lemma TupleMetrics(mp: map<Criteria, nat>, visited: seq<Criteria>, ms: seq<Metric>)
    requires EmitsAll(mp, visited, ms)
    ensures TupleMetric(mp, ms)
  {
    forall j | 0 <= j < |ms|
      ensures IsTupleMetric(mp, ms[j])
    {
      var c := visited[j];
      assert c in mp && ms[j] == MetricFor(c, mp[c]);
    }
    forall c | c in mp
      ensures exists j | 0 <= j < |ms| :: ms[j] == MetricFor(c, mp[c])
    {
      var j :| 0 <= j < |visited| && visited[j] == c;
      assert ms[j] == MetricFor(c, mp[c]);
    }
  }

  method EmitTuples(mp: map<Criteria, nat>) returns (ms: seq<Metric>, ghost visited: seq<Criteria>)
    ensures EmitsAll(mp, visited, ms)
    ensures |ms| == |mp|
    ensures TupleMetric(mp, ms)
  {
    ms, visited := [], [];
    var todo := mp.Keys;
    while todo != {}
      invariant todo <= mp.Keys
      invariant |visited| == |ms|
      invariant |ms| + |todo| == |mp|
      invariant forall i, j | 0 <= i < j < |visited| :: visited[i] != visited[j]
      invariant forall c | c in mp && c !in todo :: c in visited
      invariant forall j | 0 <= j < |visited| :: visited[j] in mp && visited[j] !in todo && ms[j] == MetricFor(visited[j], mp[visited[j]])
      decreases todo
    {
      var c :| c in todo;
      todo := todo - {c};
      ms := ms + [MetricFor(c, mp[c])];
      visited := visited + [c];
    }
    TupleMetrics(mp, visited, ms);
  }

  /** Emitting the tuple-keyed tally yields each tuple's count. */
  lemma TallyEmitsCounts(items: seq<FalcoEvent>, visited: seq<Criteria>, ms: seq<Metric>)
    requires EmitsAll(Tally(items, TupleKey), visited, ms)
    ensures EmitsCounts(items, visited, ms)
  {
    var mp := Tally(items, TupleKey);
    forall c
      ensures c in mp <==> Count(items, TupleKey, c) > 0
      ensures c in mp ==> mp[c] == Count(items, TupleKey, c)
    {
      TallyCounts(items, TupleKey, c);
    }
  }

  /**
   * The collector keyed by the tuple itself: nothing is lost to decoding and
   * no two tuples share a series.
   */
  method CollectByCriteria(kc: Store) returns (r: Result<seq<Metric>, StoreError>, ghost listed: seq<FalcoEvent>, ghost visited: seq<Criteria>)
    requires kc.Valid()
    ensures kc.listFault.Some? <==> r.Err?
    ensures kc.listFault.Some? ==> r == Err(kc.listFault.value)
    ensures r.Ok? ==> IsListing(listed, kc.events) && EmitsCounts(listed, visited, r.value)
  {
    listed, visited := [], [];
    var items := kc.List();
    if items.Err? {
      return Err(items.error), listed, visited;
    }
    listed := items.value;
    var mp := TallyItems(items.value, TupleKey);
    var ms;
    ms, visited := EmitTuples(mp);
    TallyEmitsCounts(listed, visited, ms);
    r := Ok(ms);
  }
}
