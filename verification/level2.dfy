/** The `Level2` store itself: the configured tiers as state that its
    operations update in place, and a ghost log of the notifications it
    reports. Each operation is proved to leave exactly the tiers, and to
    report exactly the events, that the specification functions of the
    other modules give. */
module Level2Cache {
  import opened Tiers
  import opened FanOut
  import opened ReadPath
  import opened Counter
  import opened Config

  /** The per-tier loop shared by the fan-outs: one tier at a time, in
      configured order, each tier `only` selects gets `op` and one event.
      Returns the new tiers, the names of the tiers reached and the events. */
  method EachSelectedTier(tiers: seq<Tier>, only: Only, op: TierOp)
    returns (updated: seq<Tier>, reached: seq<Name>, ghost events: seq<Event>)
    ensures updated == FanOutTiers(tiers, only, op)
    ensures reached == Names(SelectedStores(tiers, only))
    ensures events == OpEvents(SelectedStores(tiers, only), op)
  {
    ghost var done: seq<Tier> := [];
    updated, reached, events := [], [], [];
    assert tiers[..0] == [];
    var i := 0;
    while i < |tiers|
      invariant 0 <= i <= |tiers|
      invariant updated == FanOutTiers(tiers[..i], only, op)
      invariant done == SelectedStores(tiers[..i], only)
      invariant reached == Names(done)
      invariant events == OpEvents(done, op)
      decreases |tiers| - i
    {
      var t := tiers[i];
      SelectedPrefixStep(tiers, i, only);
      FanOutPrefixStep(tiers, i, only, op);
      if Selects(only, t.name) {
        NamesAppend(done, [t]);
        OpEventsAppend(done, [t], op);
        assert Names([t]) == [t.name];
        updated := updated + [Apply(op, t)];
        reached := reached + [t.name];
        events := events + OpEvents([t], op);
        done := done + [t];
      } else {
        updated := updated + [t];
      }
      i := i + 1;
    }
    assert tiers[..i] == tiers;
  }

  /** The lazy probe of `read_entry_from`: reads the tiers of `sel` in order,
      reporting a read and then a hit, expired hit or miss for each, collecting
      the names of the tiers that miss, and stopping at the first entry. */
  method ProbeTiers(sel: seq<Tier>, key: Key)
    returns (entry: Option<Entry>, missed: seq<Name>, ghost events: seq<Event>)
    ensures entry == Probe(sel, key).entry
    ensures missed == Probe(sel, key).missed
    ensures events == Probe(sel, key).events
  {
    entry, missed, events := None, [], [];
    var i := 0;
    while i < |sel| && entry.None?
      invariant 0 <= i <= |sel|
      invariant entry.None? ==> Probe(sel, key) == ProbeOutcome(Probe(sel[i..], key).entry,
                                                                missed + Probe(sel[i..], key).missed,
                                                                events + Probe(sel[i..], key).events)
      invariant entry.Some? ==> Probe(sel, key) == ProbeOutcome(entry, missed, events)
      decreases |sel| - i
    {
      var t := sel[i];
      ProbeSuffixStep(sel, i, key);
      if key in t.entries {
        entry := Some(t.entries[key]);
        events := events + [Event(ReadEvent, t.name), Event(HitKind(t.entries[key]), t.name)];
      } else {
        missed := missed + [t.name];
        events := events + [Event(ReadEvent, t.name), Event(MissEvent, t.name)];
      }
      i := i + 1;
    }
    if entry.None? {
      assert sel[i..] == [];
    }
  }

  /** `read_entry_from` over the tiers: an empty selection reads nothing;
      otherwise the probe loop runs, and a hit that followed misses is
      written by the per-tier write loop into the tiers that missed, selected
      by name. Returns the entry, the new tiers and the events. */
  method ReadFromTiers(tiers: seq<Tier>, sel: seq<Tier>, key: Key)
    returns (entry: Option<Entry>, updated: seq<Tier>, ghost events: seq<Event>)
    ensures entry == ReadFrom(tiers, sel, key).entry
    ensures updated == ReadFrom(tiers, sel, key).stores
    ensures events == ReadFrom(tiers, sel, key).events
    ensures Names(updated) == Names(tiers)
  {
    ReadFromKeepsNames(tiers, sel, key);
    if sel == [] {
      return None, tiers, [];
    }
    ReadFromCases(tiers, sel, key);
    var missed;
    entry, missed, events := ProbeTiers(sel, key);
    updated := tiers;
    if entry.Some? && missed != [] {
      var reached;
      ghost var written;
      updated, reached, written := EachSelectedTier(tiers, NameList(missed), WriteOp(key, entry.value));
      events := events + written;
    }
  }

  class Level2 {
    /** `store_name`: the `:name` option, or empty. */
    const storeName: string
    /** The `:namespace` option as given, before the namespace proc replaced it. */
    const providedNamespace: Option<NamespaceOption>
    /** `@stores`: the tiers, in configured order. */
    var stores: seq<Tier>
    /** The `multi_layer_cache.*` notifications reported so far. */
    ghost var log: seq<Event>

    /** Tiers are the entries of a hash keyed by name. */
    ghost predicate Valid()
      reads this
    {
      DistinctNames(stores)
    }

    /** `initialize`: the store name, one tier per store option, and the
        provided namespace kept for the namespace proc. */
    constructor (options: seq<(string, OptionValue)>)
      requires WellFormedOptions(options)
      ensures Valid()
      ensures storeName == StoreNameOf(options)
      ensures providedNamespace == ProvidedNamespaceOf(options)
      ensures stores == ConfiguredTiers(options)
      ensures Names(stores) == TierKeys(OptionKeys(options))
      ensures log == []
    {
      storeName := StoreNameOf(options);
      providedNamespace := ProvidedNamespaceOf(options);
      stores := ConfiguredTiers(options);
      log := [];
      ConfiguredTiersDistinct(options);
    }

    /** The namespace proc: called with what the provided proc returns (the
        argument is unused when none was provided), it gives the store name,
        a colon, and that result. */
    function Namespace(procResult: string): (ns: string)
      ensures |ns| > |storeName| && ns[..|storeName|] == storeName && ns[|storeName|] == ':'
      ensures providedNamespace == Some(ProcNamespace) ==> ns[|storeName| + 1..] == procResult
      ensures providedNamespace != Some(ProcNamespace) ==> ns == storeName + ":"
    {
      EffectiveNamespace(storeName, providedNamespace, procResult)
    }

    /** Applies `op` to each tier `only` selects and reports one event per
        tier reached; returns the names of the tiers reached, in order. */
    method EachSelected(only: Only, op: TierOp) returns (reached: seq<Name>)
      requires Valid()
      modifies this
      ensures Valid()
      ensures stores == FanOutTiers(old(stores), only, op)
      ensures reached == Names(SelectedStores(old(stores), only))
      ensures log == old(log) + OpEvents(SelectedStores(old(stores), only), op)
    {
      var updated;
      ghost var events;
      updated, reached, events := EachSelectedTier(stores, only, op);
      FanOutKeepsNames(stores, only, op);
      stores := updated;
      log := log + events;
    }

    /** `write_entry`: the entry is written under the key into every selected
        tier, and each selected tier's own answer comes back, in selection
        order. `accepts` is what each backend's `write` reports, by tier name. */
    method WriteEntry(key: Key, entry: Entry, only: Only, accepts: Name -> bool) returns (results: seq<bool>)
      requires Valid()
      modifies this
      ensures Valid()
      ensures stores == FanOutTiers(old(stores), only, WriteOp(key, entry))
      ensures |results| == |SelectedStores(old(stores), only)|
      ensures forall j :: 0 <= j < |results| ==> results[j] == accepts(SelectedStores(old(stores), only)[j].name)
      ensures log == old(log) + OpEvents(SelectedStores(old(stores), only), WriteOp(key, entry))
    {
      var reached := EachSelected(only, WriteOp(key, entry));
      results := seq(|reached|, j requires 0 <= j < |reached| => accepts(reached[j]));
    }

    /** `delete_entry`: the key is removed from every selected tier; the
        result is the selection iterated over. */
    method DeleteEntry(key: Key, only: Only) returns (selected: seq<Name>)
      requires Valid()
      modifies this
      ensures Valid()
      ensures stores == FanOutTiers(old(stores), only, DeleteOp(key))
      ensures selected == Names(SelectedStores(old(stores), only))
      ensures log == old(log) + OpEvents(SelectedStores(old(stores), only), DeleteOp(key))
    {
      selected := EachSelected(only, DeleteOp(key));
    }

    /** `clear`: every tier, whatever `only` says, is emptied; nothing is reported. */
    method Clear()
      requires Valid()
      modifies this
      ensures Valid()
      ensures stores == FanOutTiers(old(stores), Absent, ClearOp)
      ensures log == old(log)
    {
      var _ := EachSelected(Absent, ClearOp);
    }

    /** `cleanup`: every tier drops its expired entries; nothing is reported. */
    method Cleanup()
      requires Valid()
      modifies this
      ensures Valid()
      ensures stores == FanOutTiers(old(stores), Absent, CleanupOp)
      ensures log == old(log)
    {
      var _ := EachSelected(Absent, CleanupOp);
    }

    /** `read_entry_from`: probes `sel`, drawn from the live tiers, then backfills a hit that followed
        misses into the tiers that missed, selected by name; the new tiers and
        events come from `ReadFromTiers`. */
    method ReadEntryFrom(sel: seq<Tier>, key: Key) returns (entry: Option<Entry>)
      requires Valid()
      requires forall t :: t in sel ==> t in stores
      modifies this
      ensures Valid()
      ensures entry == ReadFrom(old(stores), sel, key).entry
      ensures stores == ReadFrom(old(stores), sel, key).stores
      ensures log == old(log) + ReadFrom(old(stores), sel, key).events
    {
      var updated;
      ghost var events;
      entry, updated, events := ReadFromTiers(stores, sel, key);
      SameNamesDistinct(stores, updated);
      stores := updated;
      log := log + events;
    }

    /** `read_entry`: read-through over the tiers `only` selects. */
    method ReadEntry(key: Key, only: Only) returns (entry: Option<Entry>)
      requires Valid()
      modifies this
      ensures Valid()
      ensures entry == ReadThrough(old(stores), only, key).entry
      ensures stores == ReadThrough(old(stores), only, key).stores
      ensures log == old(log) + ReadThrough(old(stores), only, key).events
    {
      SelectedMembership(stores, only);
      entry := ReadEntryFrom(SelectedStores(stores, only), key);
    }

    /** `modify_value`: read the counter; when found, write back its payload
        plus the amount to the same selection and return the sum. */
    method ModifyValue(key: Key, amount: int, only: Only) returns (num: Option<int>)
      requires Valid()
      modifies this
      ensures Valid()
      ensures num == Modify(old(stores), only, key, amount).result
      ensures stores == Modify(old(stores), only, key, amount).stores
      ensures log == old(log) + Modify(old(stores), only, key, amount).events
    {
      ghost var before := stores;
      var found := ReadEntry(key, only);
      if found.None? {
        return None;
      }
      ModifyFound(before, only, key, amount);
      var n := found.value.value + amount;
      // `write`'s answers are discarded: the sum is returned
      var _ := WriteEntry(key, Entry(n, false), only, _ => true);
      num := Some(n);
    }

    /** `increment`: adds `amount`, one by default. */
    method Increment(key: Key, amount: int := 1, only: Only := Absent) returns (num: Option<int>)
      requires Valid()
      modifies this
      ensures Valid()
      ensures num == Modify(old(stores), only, key, amount).result
      ensures stores == Modify(old(stores), only, key, amount).stores
      ensures log == old(log) + Modify(old(stores), only, key, amount).events
    {
      num := ModifyValue(key, amount, only);
    }

    /** `decrement`: adds the negated `amount`, one by default. */
    method Decrement(key: Key, amount: int := 1, only: Only := Absent) returns (num: Option<int>)
      requires Valid()
      modifies this
      ensures Valid()
      ensures num == Modify(old(stores), only, key, -amount).result
      ensures stores == Modify(old(stores), only, key, -amount).stores
      ensures log == old(log) + Modify(old(stores), only, key, -amount).events
    {
      num := ModifyValue(key, -amount, only);
    }
  }
}
