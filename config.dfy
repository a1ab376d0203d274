/**
 * The configuration snapshot read once at start-up (pkg/falcosidekick/config.go):
 * static custom fields from CUSTOMFIELDS, with `%NAME` indirection through
 * other environment variables, and the Prometheus label pattern.
 */
module Config {
  import opened Strings

  datatype Configuration = Configuration(
    customFields: map<string, string>,
    templatedFields: map<string, string>,
    bracketReplacer: string,
    debug: bool,
    extraLabels: string,
    extraLabelsList: seq<string>)

  const CustomFieldsVar: string := "CUSTOMFIELDS"

  /** `os.Getenv`: the empty string for an unset variable. */
  function Getenv(env: map<string, string>, name: string): string
  {
    if name in env then env[name] else ""
  }

  /** One CUSTOMFIELDS entry applied to the map built so far. */
  function CustomFieldStep(acc: map<string, string>, entry: string, env: map<string, string>): map<string, string>
  {
    var tagkeys := Split(entry, ':');
    if |tagkeys| != 2 then acc
    else if |tagkeys[1]| > 0 && tagkeys[1][0] == '%' then
      (var s := Getenv(env, tagkeys[1][1..]);
       if s != "" then acc[tagkeys[0] := s] else acc)
    else acc[tagkeys[0] := tagkeys[1]]
  }

  /** The entries applied in order, starting from `acc`. */
  function CustomFields(entries: seq<string>, env: map<string, string>, acc: map<string, string>): map<string, string>
    decreases |entries|
  {
    if entries == [] then acc
    else CustomFields(entries[1..], env, CustomFieldStep(acc, entries[0], env))
  }

  /** The custom fields parsed from the environment; empty when CUSTOMFIELDS is unset. */
  function ParsedCustomFields(env: map<string, string>): map<string, string>
  {
    if CustomFieldsVar in env then CustomFields(Split(env[CustomFieldsVar], ','), env, map[]) else map[]
  }

  /** A later entry acts on the outcome of all earlier ones. */
  lemma {:induction false} CustomFieldsAppend(entries: seq<string>, e: string, env: map<string, string>, acc: map<string, string>)
    ensures CustomFields(entries + [e], env, acc) == CustomFieldStep(CustomFields(entries, env, acc), e, env)
    decreases |entries|
  {
    if entries != [] {
      assert (entries + [e])[1..] == entries[1..] + [e];
      CustomFieldsAppend(entries[1..], e, env, CustomFieldStep(acc, entries[0], env));
    }
  }

  /** `key:value` stores the value literally, overwriting any earlier entry for the key. */
  lemma LiteralEntrySetsKey(entries: seq<string>, key: string, value: string, env: map<string, string>, acc: map<string, string>)
    requires ':' !in key && ':' !in value
    requires value == "" || value[0] != '%'
    ensures CustomFields(entries + [key + ":" + value], env, acc) == CustomFields(entries, env, acc)[key := value]
  {
    CustomFieldsAppend(entries, key + ":" + value, env, acc);
    SplitJoin([key, value], ':');
    assert Join([key, value], ':') == key + ":" + value;
  }

  /** `key:%NAME` stores `$NAME` when it is non-empty and otherwise skips the entry. */
  lemma IndirectEntryReadsEnv(entries: seq<string>, key: string, name: string, env: map<string, string>, acc: map<string, string>)
    requires ':' !in key && ':' !in name
    ensures var before := CustomFields(entries, env, acc);
      CustomFields(entries + [key + ":%" + name], env, acc)
        == if Getenv(env, name) != "" then before[key := Getenv(env, name)] else before
  {
    CustomFieldsAppend(entries, key + ":%" + name, env, acc);
    SplitJoin([key, "%" + name], ':');
    assert Join([key, "%" + name], ':') == key + ":%" + name;
    assert ("%" + name)[1..] == name;
  }

  /** An entry that does not split on ':' into exactly two pieces is dropped. */
  lemma MalformedEntryIgnored(entries: seq<string>, e: string, env: map<string, string>, acc: map<string, string>)
    requires |Split(e, ':')| != 2
    ensures CustomFields(entries + [e], env, acc) == CustomFields(entries, env, acc)
  {
    CustomFieldsAppend(entries, e, env, acc);
  }

  /** In particular a value that itself contains ':' is dropped, key and all. */
  lemma ValueWithColonDropped(entries: seq<string>, key: string, value: string, env: map<string, string>, acc: map<string, string>)
    requires ':' !in key && ':' in value
    ensures CustomFields(entries + [key + ":" + value], env, acc) == CustomFields(entries, env, acc)
  {
    assert key + ":" + value == key + [':'] + value;
    SplitPeel(key, ':', value);
    SplitAtSeparator(value, ':');
    MalformedEntryIgnored(entries, key + ":" + value, env, acc);
  }

  /** `strings.Split(strings.ReplaceAll(extra, " ", ""), ",")`. */
  function ExtraLabelsList(extra: string): (labels: seq<string>)
    ensures |labels| >= 1
    ensures forall i | 0 <= i < |labels| :: ' ' !in labels[i] && ',' !in labels[i]
    ensures Join(labels, ',') == ReplaceAll(extra, ' ', "")
  {
    var squeezed := ReplaceAll(extra, ' ', "");
    JoinSplit(squeezed, ',');
    Split(squeezed, ',')
  }

  /**
   * `getConfig`: defaults, then CUSTOMFIELDS. Templated fields, the bracket
   * replacer, debug and ExtraLabels are never read from anywhere, so they keep
   * their zero values and the ExtraLabels branch never runs.
   */
  method GetConfig(env: map<string, string>) returns (c: Configuration)
    ensures c.customFields == ParsedCustomFields(env)
    ensures c.templatedFields == map[] && c.bracketReplacer == "" && !c.debug
    ensures c.extraLabels == "" && c.extraLabelsList == []
  {
    c := Configuration(map[], map[], "", false, "", []);
    if CustomFieldsVar in env {
      var customfields := Split(env[CustomFieldsVar], ',');
      var fields := c.customFields;
      for i := 0 to |customfields|
        invariant CustomFields(customfields[i..], env, fields) == CustomFields(customfields, env, map[])
      {
        var tagkeys := Split(customfields[i], ':');
        if |tagkeys| == 2 {
          if |tagkeys[1]| > 0 && tagkeys[1][0] == '%' {
            var s := Getenv(env, tagkeys[1][1..]);
            if s != "" {
              fields := fields[tagkeys[0] := s];
            }
          } else {
            fields := fields[tagkeys[0] := tagkeys[1]];
          }
        }
      }
      c := c.(customFields := fields);
    }
    if c.extraLabels != "" {
      c := c.(extraLabelsList := ExtraLabelsList(c.extraLabels));
    }
  }

  /** The first character of the label pattern `^[a-zA-Z_:][a-zA-Z0-9_:]*$`. */
  predicate IsLabelStart(ch: char)
  {
    ('a' <= ch <= 'z') || ('A' <= ch <= 'Z') || ch == '_' || ch == ':'
  }

  predicate IsLabelChar(ch: char)
  {
    IsLabelStart(ch) || ('0' <= ch <= '9')
  }

  /** `regPromLabels.MatchString(s)`. */
  predicate MatchesPromLabel(s: string)
  {
    |s| >= 1 && IsLabelStart(s[0]) && forall i | 1 <= i < |s| :: IsLabelChar(s[i])
  }
}
