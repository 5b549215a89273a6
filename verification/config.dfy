/** Construction of a `Level2` store from its options hash: the store name
    (`:name`, default empty), the tiers (one per remaining option, in option
    order) and the namespace proc that prefixes every key with the store name. */
module Config {
  import opened Tiers

  /** What the caller passed as `:namespace`: a proc, or any other value. */
  datatype NamespaceOption = ProcNamespace | PlainNamespace(text: string)

  /** One value of the options hash, by the role its key gives it. */
  datatype OptionValue =
    | NameValue(name: string)
    | NamespaceValue(namespace: NamespaceOption)
    | StoreValue(entries: map<Key, Entry>)   // a store spec, looked up into a backend holding these entries

  const NameKey: string := "name"
  const NamespaceKey: string := "namespace"

  function OptionKeys(options: seq<(string, OptionValue)>): (r: seq<string>)
    ensures |r| == |options|
    ensures forall i :: 0 <= i < |options| ==> r[i] == options[i].0
    decreases |options|
  {
    if options == [] then [] else [options[0].0] + OptionKeys(options[1..])
  }

  /** Hash keys are distinct, and each key's value has the role the key names. */
  predicate WellFormedOptions(options: seq<(string, OptionValue)>)
  {
    (forall i, j :: 0 <= i < j < |options| ==> options[i].0 != options[j].0) &&
    (forall i :: 0 <= i < |options| ==>
       (options[i].0 == NameKey <==> options[i].1.NameValue?) &&
       (options[i].0 == NamespaceKey <==> options[i].1.NamespaceValue?))
  }

  /** `store_options.delete(:name) || ''`. */
  function StoreNameOf(options: seq<(string, OptionValue)>): (name: string)
    ensures NameKey !in OptionKeys(options) ==> name == ""
    ensures forall i :: (0 <= i < |options| && options[i].0 == NameKey && options[i].1.NameValue? &&
                         forall j :: 0 <= j < i ==> options[j].0 != NameKey) ==> name == options[i].1.name
    decreases |options|
  {
    if options == [] then ""
    else if options[0].0 == NameKey then (if options[0].1.NameValue? then options[0].1.name else "")
    else StoreNameOf(options[1..])
  }

  /** `store_options[:namespace]`, read before the option is replaced. */
  function ProvidedNamespaceOf(options: seq<(string, OptionValue)>): (ns: Option<NamespaceOption>)
    ensures NamespaceKey !in OptionKeys(options) ==> ns == None
    ensures forall i :: (0 <= i < |options| && options[i].0 == NamespaceKey && options[i].1.NamespaceValue? &&
                         forall j :: 0 <= j < i ==> options[j].0 != NamespaceKey) ==> ns == Some(options[i].1.namespace)
    decreases |options|
  {
    if options == [] then None
    else if options[0].0 == NamespaceKey then
      (if options[0].1.NamespaceValue? then Some(options[0].1.namespace) else None)
    else ProvidedNamespaceOf(options[1..])
  }

  /** The body of the namespace proc: the store name, a colon, then what the
      provided namespace returns when it is a proc (`procResult`, the value of
      that call) and nothing otherwise. */
  function EffectiveNamespace(storeName: string, provided: Option<NamespaceOption>, procResult: string): (ns: string)
    ensures |ns| > |storeName| && ns[..|storeName|] == storeName && ns[|storeName|] == ':'
    ensures provided == Some(ProcNamespace) ==> ns[|storeName| + 1..] == procResult
    ensures provided != Some(ProcNamespace) ==> ns == storeName + ":"
  {
    var suffix := if provided == Some(ProcNamespace) then procResult else "";
    storeName + ":" + suffix
  }

  /** Store names without a colon keep namespaces apart: equal namespaces come
      from equal store names and equal proc suffixes. */
  lemma NamespacesSeparate(name1: string, p1: Option<NamespaceOption>, r1: string,
                           name2: string, p2: Option<NamespaceOption>, r2: string)
    requires ':' !in name1 && ':' !in name2
    requires EffectiveNamespace(name1, p1, r1) == EffectiveNamespace(name2, p2, r2)
    ensures name1 == name2
    ensures (if p1 == Some(ProcNamespace) then r1 else "") == (if p2 == Some(ProcNamespace) then r2 else "")
  {
    var ns := EffectiveNamespace(name1, p1, r1);
    assert |name1| == |name2|;
    assert name1 == ns[..|name1|] == name2;
    var s1 := if p1 == Some(ProcNamespace) then r1 else "";
    var s2 := if p2 == Some(ProcNamespace) then r2 else "";
    assert ns == name1 + ":" + s1 == name2 + ":" + s2;
    assert s1 == ns[|name1| + 1..] == s2;
  }

  /** A plain (non-proc) namespace is dropped: only the store name remains. */
  lemma PlainNamespaceDropped(storeName: string, text: string, procResult: string)
    ensures EffectiveNamespace(storeName, Some(PlainNamespace(text)), procResult)
         == EffectiveNamespace(storeName, None, procResult)
  {
  }

  /** As written: every option key except `:name` becomes a tier, so a
      `:namespace` option becomes a tier too. */
  function TierKeysAsWritten(keys: seq<string>): (r: seq<string>)
    ensures forall k :: k in r <==> k in keys && k != NameKey
    decreases |keys|
  {
    if keys == [] then []
    else if keys[0] != NameKey then [keys[0]] + TierKeysAsWritten(keys[1..])
    else TierKeysAsWritten(keys[1..])
  }

  /** Options naming a store and a namespace beside one tier yield, as
      written, a second tier called `namespace`. */
  lemma NamespaceBecomesTierAsWritten()
    ensures TierKeysAsWritten([NameKey, NamespaceKey, "memory"]) == [NamespaceKey, "memory"]
  {
    var keys := [NameKey, NamespaceKey, "memory"];
    assert keys[1..][1..] == ["memory"];
    assert TierKeysAsWritten(["memory"]) == ["memory"];
    assert TierKeysAsWritten(keys[1..]) == [NamespaceKey, "memory"];
  }

  /** Corrected: the tiers are the option keys other than `:name` and
      `:namespace`, in option order. */
  function TierKeys(keys: seq<string>): (r: seq<string>)
    ensures forall k :: k in r <==> k in keys && k != NameKey && k != NamespaceKey
    ensures |r| <= |keys|
    decreases |keys|
  {
    if keys == [] then []
    else if keys[0] != NameKey && keys[0] != NamespaceKey then [keys[0]] + TierKeys(keys[1..])
    else TierKeys(keys[1..])
  }

  /** What the backend looked up from an option value holds at start. */
  function BackendEntries(value: OptionValue): map<Key, Entry>
  {
    if value.StoreValue? then value.entries else map[]
  }

  /** The configured tiers: one per store option, named by its key, in option
      order, each holding what its own option's backend holds. */
  function ConfiguredTiers(options: seq<(string, OptionValue)>): (r: seq<Tier>)
    ensures Names(r) == TierKeys(OptionKeys(options))
    decreases |options|
  {
    if options == [] then []
    else
      var (key, value) := options[0];
      var rest := ConfiguredTiers(options[1..]);
      assert OptionKeys(options) == [key] + OptionKeys(options[1..]);
      if key != NameKey && key != NamespaceKey then
        NamesAppend([Tier(key, BackendEntries(value))], rest);
        [Tier(key, BackendEntries(value))] + rest
      else rest
  }

  /** Tier `t` is named by some option and holds that option's backend entries. */
  ghost predicate BuiltFromOption(options: seq<(string, OptionValue)>, t: Tier)
  {
    exists j :: 0 <= j < |options| && options[j].0 == t.name && t.entries == BackendEntries(options[j].1)
  }

  /** Every configured tier starts with the entries of the backend made from
      the option of the same name. */
  lemma {:induction false} ConfiguredTiersHoldOptions(options: seq<(string, OptionValue)>)
    ensures forall i :: 0 <= i < |ConfiguredTiers(options)| ==> BuiltFromOption(options, ConfiguredTiers(options)[i])
    decreases |options|
  {
    if options != [] {
      var rest := options[1..];
      ConfiguredTiersHoldOptions(rest);
      var rr := ConfiguredTiers(rest);
      var r := ConfiguredTiers(options);
      var key := options[0].0;
      assert r == if key != NameKey && key != NamespaceKey then [Tier(key, BackendEntries(options[0].1))] + rr else rr;
      forall i | 0 <= i < |r|
        ensures BuiltFromOption(options, r[i])
      {
        if key != NameKey && key != NamespaceKey && i == 0 {
          assert options[0].0 == r[0].name && r[0].entries == BackendEntries(options[0].1);
        } else {
          var k := if key != NameKey && key != NamespaceKey then i - 1 else i;
          assert 0 <= k < |rr| && r[i] == rr[k];
          assert BuiltFromOption(rest, rr[k]);
          var j :| 0 <= j < |rest| && rest[j].0 == rr[k].name && rr[k].entries == BackendEntries(rest[j].1);
          assert options[j + 1] == rest[j];
        }
      }
    }
  }

  /** Distinct option keys give distinctly named tiers. */
  lemma {:induction false} ConfiguredTiersDistinct(options: seq<(string, OptionValue)>)
    requires WellFormedOptions(options)
    ensures DistinctNames(ConfiguredTiers(options))
    decreases |options|
  {
    if options != [] {
      var rest := options[1..];
      assert WellFormedOptions(rest);
      ConfiguredTiersDistinct(rest);
      var r := ConfiguredTiers(rest);
      forall i | 0 <= i < |r|
        ensures r[i].name != options[0].0
      {
        assert Names(r)[i] == r[i].name;
        assert r[i].name in TierKeys(OptionKeys(rest));
        var j :| 0 <= j < |rest| && OptionKeys(rest)[j] == r[i].name;
        assert rest[j] == options[j + 1];
      }
    }
  }
}
