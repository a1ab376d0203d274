/**
 * `newFalcoPayload` (pkg/falcosidekick/handler.go): the decoded payload's
 * output fields are rewritten in place by three loops (static custom fields,
 * templated fields, bracket renaming), the source gets its default and a fresh
 * request id is attached. The Prometheus label map the function also computes
 * is never returned; it is modelled as the separate function PromLabels.
 */
module Normalizer {
  import opened Wrappers
  import opened Strings
  import opened Api
  import opened Config

  const DefaultSource: string := "syscalls"

  /**
   * Why newFalcoPayload produced no payload: the body did not decode, or the
   * pod-label extraction panicked on a non-string value.
   */
  datatype NormalizeError = MalformedPayload | Panicked

  /** `order` lists each key of `keys` once: one iteration order of a Go map. */
  predicate Enumerates(order: seq<string>, keys: set<string>)
  {
    && (forall i | 0 <= i < |order| :: order[i] in keys)
    && (forall k | k in keys :: k in order)
    && (forall i, j | 0 <= i < j < |order| :: order[i] != order[j])
  }

  // ----- Static custom fields -------------------------------------------

  /**
   * The output fields once the custom fields are merged: with any custom
   * field configured, a nil map is created and every custom field overwrites
   * the incoming field of the same key; otherwise nothing changes.
   */
  function MergedFields(fields: FieldMap, custom: map<string, string>): (r: FieldMap)
    ensures |custom| == 0 ==> r == fields
    ensures |custom| > 0 ==> r.Fields? && r.entries.Keys == fields.Entries().Keys + custom.Keys
    ensures |custom| > 0 ==> forall k | k in custom :: r.entries[k] == Str(custom[k])
    ensures forall k | k in fields.Entries() && k !in custom :: k in r.Entries() && r.Entries()[k] == fields.Entries()[k]
  {
    if |custom| == 0 then fields
    else Fields(fields.Entries() + map k | k in custom :: Str(custom[k]))
  }

  method MergeCustomFields(fields: FieldMap, custom: map<string, string>) returns (r: FieldMap)
    ensures r == MergedFields(fields, custom)
  {
    r := fields;
    if |custom| > 0 {
      var m := fields.Entries();
      var todo := custom.Keys;
      while todo != {}
        invariant todo <= custom.Keys
        invariant m.Keys == fields.Entries().Keys + (custom.Keys - todo)
        invariant forall k | k in m :: m[k] == if k in custom && k !in todo then Str(custom[k]) else fields.Entries()[k]
        decreases todo
      {
        var key :| key in todo;
        m := m[key := Str(custom[key])];
        todo := todo - {key};
      }
      r := Fields(m);
      assert m == fields.Entries() + map k | k in custom :: Str(custom[k]);
    }
  }

  // ----- Templated fields ------------------------------------------------

  /**
   * One templated field: a template that does not parse leaves the map alone;
   * otherwise the rendered text is stored under the key, also when execution
   * failed part-way (the error is only logged).
   */
  function ApplyTemplate(m: map<string, FieldValue>, key: string, template: string, fx: Foreign): map<string, FieldValue>
  {
    if !fx.parse(template) then m
    else m[key := Str(fx.execute(template, m).output)]
  }

  /** The templated fields applied in the iteration order `order`. */
  function TemplatesFrom(m: map<string, FieldValue>, templates: map<string, string>, order: seq<string>, fx: Foreign): map<string, FieldValue>
    requires forall i | 0 <= i < |order| :: order[i] in templates
    decreases |order|
  {
    if order == [] then m
    else TemplatesFrom(ApplyTemplate(m, order[0], templates[order[0]], fx), templates, order[1..], fx)
  }

  /** With any templated field configured a nil map is created first. */
  function TemplatedFields(fields: FieldMap, templates: map<string, string>, order: seq<string>, fx: Foreign): FieldMap
    requires Enumerates(order, templates.Keys)
  {
    if |templates| == 0 then fields else Fields(TemplatesFrom(fields.Entries(), templates, order, fx))
  }

  method RenderTemplates(fields: FieldMap, templates: map<string, string>, order: seq<string>, fx: Foreign) returns (r: FieldMap)
    requires Enumerates(order, templates.Keys)
    ensures r == TemplatedFields(fields, templates, order, fx)
  {
    r := fields;
    if |templates| > 0 {
      var m := fields.Entries();
      for i := 0 to |order|
        invariant TemplatesFrom(m, templates, order[i..], fx) == TemplatesFrom(fields.Entries(), templates, order, fx)
      {
        assert order[i..][1..] == order[i + 1..];
        var key := order[i];
        var value := templates[key];
        if !fx.parse(value) {
          continue;
        }
        var v := fx.execute(value, m);
        m := m[key := Str(v.output)];
      }
      r := Fields(m);
    }
  }

  /** Keys outside the iteration order are never written. */
  lemma {:induction false} TemplatesKeepOtherKeys(m: map<string, FieldValue>, templates: map<string, string>, order: seq<string>, fx: Foreign, k: string)
    requires forall i | 0 <= i < |order| :: order[i] in templates
    requires k !in order
    ensures var r := TemplatesFrom(m, templates, order, fx);
      (k in r <==> k in m) && (k in m ==> r[k] == m[k])
    decreases |order|
  {
    if order != [] {
      TemplatesKeepOtherKeys(ApplyTemplate(m, order[0], templates[order[0]], fx), templates, order[1..], fx, k);
    }
  }

  /** Applying the whole order is applying a prefix, then the rest. */
  lemma {:induction false} TemplatesSplit(m: map<string, FieldValue>, templates: map<string, string>, order: seq<string>, fx: Foreign, j: nat)
    requires forall i | 0 <= i < |order| :: order[i] in templates
    requires j <= |order|
    ensures TemplatesFrom(m, templates, order, fx) == TemplatesFrom(TemplatesFrom(m, templates, order[..j], fx), templates, order[j..], fx)
    decreases j
  {
    if j > 0 {
      var m' := ApplyTemplate(m, order[0], templates[order[0]], fx);
      TemplatesSplit(m', templates, order[1..], fx, j - 1);
      assert order[..j][1..] == order[1..][..j - 1];
      assert order[1..][j - 1..] == order[j..];
    }
  }

  /**
   * What a templated field ends up holding: a template that fails to parse
   * leaves its key exactly as it was; one that parses stores, as a string,
   * whatever its execution rendered over the map as it stood at its turn,
   * whether or not execution failed.
   */
  lemma TemplateOutcome(m: map<string, FieldValue>, templates: map<string, string>, order: seq<string>, fx: Foreign, j: nat)
    requires Enumerates(order, templates.Keys)
    requires j < |order|
    ensures var k, r := order[j], TemplatesFrom(m, templates, order, fx);
      if fx.parse(templates[k]) then
        k in r && r[k] == Str(fx.execute(templates[k], TemplatesFrom(m, templates, order[..j], fx)).output)
      else
        (k in r <==> k in m) && (k in m ==> r[k] == m[k])
  {
    var k := order[j];
    var before := TemplatesFrom(m, templates, order[..j], fx);
    TemplatesSplit(m, templates, order, fx, j);
    assert order[j..][1..] == order[j + 1..];
    assert k !in order[..j] by {
      forall i | 0 <= i < j ensures order[..j][i] != k { assert order[i] != order[j]; }
    }
    assert k !in order[j + 1..] by {
      forall i | j < i < |order| ensures order[i] != k { }
    }
    TemplatesKeepOtherKeys(m, templates, order[..j], fx, k);
    TemplatesKeepOtherKeys(ApplyTemplate(before, k, templates[k], fx), templates, order[j + 1..], fx, k);
  }

  // ----- Bracket renaming -------------------------------------------------

  /** `strings.ReplaceAll(strings.ReplaceAll(key, "]", ""), "[", rep)`. */
  function BracketRename(key: string, rep: string): string
  {
    ReplaceAll(ReplaceAll(key, ']', ""), '[', rep)
  }

  /** `t` is the renamed form of some bracketed key of `m`. */
  ghost predicate IsRenameOf(m: map<string, FieldValue>, rep: string, t: string)
  {
    exists k | k in m && '[' in k :: BracketRename(k, rep) == t
  }

  /**
   * What the renaming loop guarantees whatever order Go's map iteration
   * takes. With an empty replacer (or a nil map) nothing changes; a key
   * without '[' that no bracketed key is renamed onto keeps its value. With a
   * non-empty replacer free of '[': no key holds '[' afterwards, every
   * bracketed key is replaced by its renamed form, which holds the value of a
   * bracketed key renamed onto it, and no other key appears.
   */
  ghost predicate RenamedFrom(before: FieldMap, rep: string, after: FieldMap)
  {
    var b, a := before.Entries(), after.Entries();
    && ((rep == "" || before.NilMap?) ==> after == before)
    && (after.NilMap? <==> before.NilMap?)
    && (forall k | k in b && '[' !in k && !IsRenameOf(b, rep, k) :: k in a && a[k] == b[k])
    && ('[' !in rep && rep != "" ==>
         && (forall k | k in a :: '[' !in k && (k in b || IsRenameOf(b, rep, k)))
         && (forall k | k in b && '[' in k :: BracketRename(k, rep) in a)
         && (forall t | t in a && IsRenameOf(b, rep, t) ::
               exists k | k in b && '[' in k && BracketRename(k, rep) == t :: a[t] == b[k]))
  }

  /**
   * The renaming loop's invariant over the original map `orig`, the current
   * map `m` and the keys not yet visited `todo`; `src` records, for each
   * renamed key written so far, the bracketed key whose value it holds.
   */
  ghost predicate RenameInv(orig: map<string, FieldValue>, rep: string, m: map<string, FieldValue>, todo: set<string>, src: map<string, string>)
  {
    && todo <= orig.Keys
    && (forall k | k in orig && '[' !in k && !IsRenameOf(orig, rep, k) :: k in m && m[k] == orig[k])
    && ('[' !in rep ==> CleanRenameInv(orig, rep, m, todo, src))
  }

  /** The part of the invariant that holds when the replacer has no '['. */
  ghost predicate CleanRenameInv(orig: map<string, FieldValue>, rep: string, m: map<string, FieldValue>, todo: set<string>, src: map<string, string>)
  {
    && todo <= orig.Keys
    && (forall k | k in todo && '[' in k :: k in m && m[k] == orig[k])
    && (forall k | k in m :: ('[' !in k && (k in orig || IsRenameOf(orig, rep, k))) || ('[' in k && k in todo))
    && (forall k | k in orig && '[' in k && k !in todo :: BracketRename(k, rep) in src)
    && (forall t | t in src ::
          && src[t] in orig && '[' in src[t] && BracketRename(src[t], rep) == t
          && t in m && m[t] == orig[src[t]])
  }

  /** A renamed key never holds '[' when the replacer does not. */
  lemma RenameDropsBracket(k: string, rep: string)
    requires '[' !in rep
    ensures '[' !in BracketRename(k, rep)
  {
  }

  /** Visiting a bracketed key still present in the map keeps the invariant. */
  lemma RenameVisit(orig: map<string, FieldValue>, rep: string, m: map<string, FieldValue>, todo: set<string>, src: map<string, string>, i: string)
    requires RenameInv(orig, rep, m, todo, src)
    requires i in todo && '[' in i && i in m
    ensures RenameInv(orig, rep, m[BracketRename(i, rep) := m[i]] - {i}, todo - {i}, src[BracketRename(i, rep) := i])
  {
    var t := BracketRename(i, rep);
    var m', todo', src' := m[t := m[i]] - {i}, todo - {i}, src[t := i];
    assert IsRenameOf(orig, rep, t);
    forall k | k in orig && '[' !in k && !IsRenameOf(orig, rep, k)
      ensures k in m' && m'[k] == orig[k]
    {
      assert k != t;
    }
    if '[' !in rep {
      RenameVisitClean(orig, rep, m, todo, src, i);
    }
  }

  lemma RenameVisitClean(orig: map<string, FieldValue>, rep: string, m: map<string, FieldValue>, todo: set<string>, src: map<string, string>, i: string)
    requires '[' !in rep
    requires CleanRenameInv(orig, rep, m, todo, src)
    requires i in todo && '[' in i && i in m
    ensures CleanRenameInv(orig, rep, m[BracketRename(i, rep) := m[i]] - {i}, todo - {i}, src[BracketRename(i, rep) := i])
  {
    var t := BracketRename(i, rep);
    var m', todo', src' := m[t := m[i]] - {i}, todo - {i}, src[t := i];
    RenameDropsBracket(i, rep);
    assert t != i;
    assert IsRenameOf(orig, rep, t);
    forall k | k in todo' && '[' in k
      ensures k in m' && m'[k] == orig[k]
    {
      assert k != t;
    }
    forall k | k in m'
      ensures ('[' !in k && (k in orig || IsRenameOf(orig, rep, k))) || ('[' in k && k in todo')
    {
    }
    forall k | k in orig && '[' in k && k !in todo'
      ensures BracketRename(k, rep) in src'
    {
    }
    forall t' | t' in src'
      ensures && src'[t'] in orig && '[' in src'[t'] && BracketRename(src'[t'], rep) == t'
              && t' in m' && m'[t'] == orig[src'[t']]
    {
      if t' != t {
        RenameDropsBracket(src[t'], rep);
        assert t' != i;
      }
    }
  }

  /** Visiting any other key changes nothing but the set of keys left. */
  lemma RenameSkip(orig: map<string, FieldValue>, rep: string, m: map<string, FieldValue>, todo: set<string>, src: map<string, string>, i: string)
    requires RenameInv(orig, rep, m, todo, src)
    requires i in todo && !('[' in i && i in m)
    ensures RenameInv(orig, rep, m, todo - {i}, src)
  {
  }

  /** Once every key is visited the invariant gives the loop's guarantee. */
  lemma RenameDone(orig: map<string, FieldValue>, rep: string, m: map<string, FieldValue>, src: map<string, string>)
    requires rep != ""
    requires RenameInv(orig, rep, m, {}, src)
    ensures RenamedFrom(Fields(orig), rep, Fields(m))
  {
    if '[' !in rep {
      forall t | t in m && IsRenameOf(orig, rep, t)
        ensures exists k | k in orig && '[' in k && BracketRename(k, rep) == t :: m[t] == orig[k]
      {
        var k0 :| k0 in orig && '[' in k0 && BracketRename(k0, rep) == t;
        var k := src[t];
        assert m[t] == orig[k];
      }
    }
  }

  /**
   * The loop over the map, deleting each bracketed key after storing its
   * value under the renamed key. Entries inserted by the loop are not visited
   * again (Go allows either); an entry deleted before its turn is skipped.
   */
  method RenameBrackets(fields: FieldMap, rep: string) returns (r: FieldMap)
    ensures RenamedFrom(fields, rep, r)
  {
    if rep == "" || fields.NilMap? {
      return fields;
    }
    var orig := fields.entries;
    var m := orig;
    var todo := orig.Keys;
    ghost var src: map<string, string> := map[];
    while todo != {}
      invariant RenameInv(orig, rep, m, todo, src)
      decreases todo
    {
      var i :| i in todo;
      if '[' in i && i in m {
        RenameVisit(orig, rep, m, todo, src, i);
        var t := BracketRename(i, rep);
        m := m[t := m[i]];
        m := m - {i};
        src := src[t := i];
      } else {
        RenameSkip(orig, rep, m, todo, src, i);
      }
      todo := todo - {i};
    }
    RenameDone(orig, rep, m, src);
    r := Fields(m);
  }

  // ----- The whole normalisation ----------------------------------------

  /** What newFalcoPayload returns for the decoded payload `d`. */
  ghost predicate Normalized(d: FalcoPayload, cfg: Configuration, order: seq<string>, fx: Foreign, uuid: string, p: FalcoPayload)
    requires Enumerates(order, cfg.templatedFields.Keys)
  {
    && p == d.(source := if d.source == "" then DefaultSource else d.source,
               uuid := uuid,
               outputFields := p.outputFields)
    && RenamedFrom(TemplatedFields(MergedFields(d.outputFields, cfg.customFields), cfg.templatedFields, order, fx),
                   cfg.bracketReplacer, p.outputFields)
  }

  /**
   * The namespace/pod loop runs over the fields after the custom merge, so
   * a string custom field can hide a non-string value of the same key.
   */
  predicate PanicsOn(d: FalcoPayload, cfg: Configuration)
  {
    PodLabelsAsWritten(MergedFields(d.outputFields, cfg.customFields)).None?
  }

  /**
   * `newFalcoPayload`: a body that does not decode is an error; otherwise
   * custom fields, the default source and the request id are applied, the
   * namespace/pod extraction panics on a non-string value (the `Panicked`
   * outcome), and templated fields and bracket renaming follow, in that
   * order. `uuid` is `uuid.New()`.
   */
  method NewFalcoPayload(body: string, cfg: Configuration, order: seq<string>, fx: Foreign, uuid: string)
    returns (r: Result<FalcoPayload, NormalizeError>)
    requires Enumerates(order, cfg.templatedFields.Keys)
    ensures r == Err(MalformedPayload) <==> fx.decode(body).None?
    ensures r == Err(Panicked) <==> fx.decode(body).Some? && PanicsOn(fx.decode(body).value, cfg)
    ensures r.Ok? ==> Normalized(fx.decode(body).value, cfg, order, fx, uuid, r.value)
  {
    var decoded := fx.decode(body);
    if decoded.None? {
      return Err(MalformedPayload);
    }
    var payload := decoded.value;
    var fields := MergeCustomFields(payload.outputFields, cfg.customFields);
    if payload.source == "" {
      payload := payload.(source := DefaultSource);
    }
    payload := payload.(uuid := uuid);
    if PodLabelsAsWritten(fields).None? {
      return Err(Panicked);
    }
    fields := RenderTemplates(fields, cfg.templatedFields, order, fx);
    fields := RenameBrackets(fields, cfg.bracketReplacer);
    payload := payload.(outputFields := fields);
    r := Ok(payload);
  }

  // ----- The Prometheus label map ------------------------------------------

  /** Go panics on `j.(string)` when `j` is neither nil nor a string. */
  predicate AssertionPanics(v: FieldValue)
  {
    !v.Null? && !v.Str?
  }

  function StringOrEmpty(m: map<string, FieldValue>, key: string): string
  {
    if key in m && m[key].Str? then m[key].s else ""
  }

  /**
   * The namespace and pod values as the source reads them, ranging over the
   * fields with a bare type assertion on every non-nil value of either key:
   * None is the panic a non-string, non-nil value causes. Where it does not
   * panic it agrees with the checked extraction.
   */
  function PodLabelsAsWritten(fields: FieldMap): (r: Option<(string, string)>)
    ensures r.None? <==> exists k | k in fields.Entries() && (k == NsLabel || k == PodLabel) :: AssertionPanics(fields.Entries()[k])
    ensures r.Some? ==> r.value == PodLabels(fields)
  {
    var e := fields.Entries();
    if (NsLabel in e && AssertionPanics(e[NsLabel])) || (PodLabel in e && AssertionPanics(e[PodLabel])) then None
    else Some((StringOrEmpty(e, NsLabel), StringOrEmpty(e, PodLabel)))
  }

  /** Any non-string, non-nil namespace or pod value makes the as-written extraction panic, whatever else the fields hold. */
  lemma PodLabelsAsWrittenPanics(fs: map<string, FieldValue>, v: FieldValue)
    requires AssertionPanics(v)
    ensures PodLabelsAsWritten(Fields(fs[NsLabel := v])) == None
    ensures PodLabelsAsWritten(Fields(fs[PodLabel := v])) == None
  {
    assert NsLabel in fs[NsLabel := v];
    assert PodLabel in fs[PodLabel := v];
  }

  /** The namespace number 5 of a concrete alert is such a value. */
  lemma NumericNamespacePanics()
    ensures PodLabelsAsWritten(Fields(map[NsLabel := Number("5")])) == None
  {
    PodLabelsAsWrittenPanics(map[], Number("5"));
  }

  /** One label read with the checked form `v, ok := j.(string)`: the string, or "" for anything else or nothing. */
  function CheckedLabel(e: map<string, FieldValue>, key: string): string
  {
    if key !in e then ""
    else match e[key]
      case Str(s) => s
      case _ => ""
  }

  /**
   * The extraction with the checked assertion: never fails, and yields each
   * value when it is a string and "" otherwise.
   */
  function PodLabels(fields: FieldMap): (r: (string, string))
    ensures r.0 == (if NsLabel in fields.Entries() && fields.Entries()[NsLabel].Str? then fields.Entries()[NsLabel].s else "")
    ensures r.1 == (if PodLabel in fields.Entries() && fields.Entries()[PodLabel].Str? then fields.Entries()[PodLabel].s else "")
  {
    var e := fields.Entries();
    (CheckedLabel(e, NsLabel), CheckedLabel(e, PodLabel))
  }

  function Underscored(s: string): string
  {
    ReplaceAll(s, '.', "_")
  }

  /** One extra label: set to "" first, then to the output field's value when that is a string and the name is label-safe. */
  function ExtraLabelStep(labels: map<string, string>, name: string, fields: map<string, FieldValue>): map<string, string>
  {
    var key := Underscored(name);
    var cleared := labels[key := ""];
    if name in fields && MatchesPromLabel(key) && fields[name].Str? then cleared[key := fields[name].s] else cleared
  }

  /** The extra labels in list order; keys only grow and keys no extra label names keep their values. */
  /** Some extra label becomes the Prometheus label `k`. */
  predicate NamesExtra(extra: seq<string>, k: string)
  {
    exists i | 0 <= i < |extra| :: Underscored(extra[i]) == k
  }

  function ExtraLabels(labels: map<string, string>, extra: seq<string>, fields: map<string, FieldValue>): (r: map<string, string>)
    ensures labels.Keys <= r.Keys
    ensures forall k | k in r :: k in labels || NamesExtra(extra, k)
    ensures forall i | 0 <= i < |extra| :: Underscored(extra[i]) in r
    ensures forall k | k in labels && !NamesExtra(extra, k) :: r[k] == labels[k]
    decreases |extra|
  {
    if extra == [] then labels
    else
      var r := ExtraLabels(ExtraLabelStep(labels, extra[0], fields), extra[1..], fields);
      assert forall k | NamesExtra(extra[1..], k) :: NamesExtra(extra, k) by {
        forall k | NamesExtra(extra[1..], k) ensures NamesExtra(extra, k) {
          var i :| 0 <= i < |extra[1..]| && Underscored(extra[1..][i]) == k;
          assert Underscored(extra[i + 1]) == k;
        }
      }
      assert NamesExtra(extra, Underscored(extra[0])) by { assert Underscored(extra[0]) == Underscored(extra[0]); }
      assert forall k | !NamesExtra(extra, k) :: !NamesExtra(extra[1..], k) && k != Underscored(extra[0]);
      r
  }

  const BaseLabelKeys: set<string> := {"rule", "priority", "k8s_ns_name", "k8s_pod_name", "hostname"}

  /** The labels every payload gets: rule, priority, the pod labels, and the hostname when it is set. */
  function BaseLabels(p: FalcoPayload, podLabels: (string, string)): (m: map<string, string>)
    ensures m.Keys <= BaseLabelKeys
    ensures "rule" in m && m["rule"] == p.rule && "priority" in m && m["priority"] == p.priority
    ensures "k8s_ns_name" in m && m["k8s_ns_name"] == podLabels.0 && "k8s_pod_name" in m && m["k8s_pod_name"] == podLabels.1
    ensures ("hostname" in m <==> p.hostname != "") && (p.hostname != "" ==> m["hostname"] == p.hostname)
  {
    var base := map["rule" := p.rule, "priority" := p.priority, "k8s_ns_name" := podLabels.0, "k8s_pod_name" := podLabels.1];
    if p.hostname != "" then base["hostname" := p.hostname] else base
  }

  /** The custom fields whose names are valid Prometheus labels. */
  function CustomLabels(cfg: Configuration): map<string, string>
  {
    map k | k in cfg.customFields && MatchesPromLabel(k) :: cfg.customFields[k]
  }

  /** A label-safe custom field or an extra label writes the Prometheus label `k`. */
  predicate Overrides(cfg: Configuration, k: string)
  {
    k in CustomLabels(cfg) || NamesExtra(cfg.extraLabelsList, k)
  }

  /**
   * `promLabels`: rule, priority and the pod labels always, the hostname when
   * it is set, every custom field whose key is label-safe, then the extra
   * labels. `fields` is the output-field map after templating. A base label
   * keeps its value unless a custom field or an extra label writes over it.
   */
  function PromLabels(p: FalcoPayload, podLabels: (string, string), cfg: Configuration, fields: map<string, FieldValue>): (labels: map<string, string>)
    ensures "rule" in labels && "priority" in labels && "k8s_ns_name" in labels && "k8s_pod_name" in labels
    ensures p.hostname != "" ==> "hostname" in labels
    ensures forall i | 0 <= i < |cfg.extraLabelsList| :: Underscored(cfg.extraLabelsList[i]) in labels
    ensures forall k | k in cfg.customFields && MatchesPromLabel(k) && !NamesExtra(cfg.extraLabelsList, k)
              :: k in labels && labels[k] == cfg.customFields[k]
    ensures forall k | k in BaseLabels(p, podLabels) && !Overrides(cfg, k) :: k in labels && labels[k] == BaseLabels(p, podLabels)[k]
    ensures !Overrides(cfg, "hostname") ==> ("hostname" in labels <==> p.hostname != "")
    ensures forall k | k in labels :: k in BaseLabelKeys || Overrides(cfg, k)
  {
    var base := BaseLabels(p, podLabels);
    var custom := CustomLabels(cfg);
    var merged := base + custom;
    assert forall k | k in cfg.customFields && MatchesPromLabel(k) :: k in custom && merged[k] == cfg.customFields[k];
    assert forall k | k in base && k !in custom :: merged[k] == base[k];
    ExtraLabels(merged, cfg.extraLabelsList, fields)
  }
}
