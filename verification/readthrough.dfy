/** Read-through (`read_entry_from`): probe the selected tiers one at a time in
    configured order, stop at the first tier that returns an entry (expired
    or not), and backfill that entry into exactly the tiers that missed. */
module ReadPath {
  import opened Tiers
  import opened FanOut

  /** What probing produced: the first entry found, the names of the tiers
      that missed before it, and the events reported along the way. */
  datatype ProbeOutcome = ProbeOutcome(entry: Option<Entry>, missed: seq<Name>, events: seq<Event>)

  function HitKind(e: Entry): EventKind
  {
    if e.expired then ExpiredHitEvent else HitEvent
  }

  /** The lazy probe: each tier is read (a `read` event) and reports a hit,
      an expired hit or a miss; the first entry ends the probe.
      `ProbeStopsAtFirstHolder` and `ProbeMissesIffAbsent` state what it
      finds, and `ProbeTiers` computes it with a loop. */
  function Probe(sel: seq<Tier>, key: Key): (r: ProbeOutcome)
    decreases |sel|
  {
    if sel == [] then ProbeOutcome(None, [], [])
    else
      var t := sel[0];
      if key in t.entries then
        var e := t.entries[key];
        ProbeOutcome(Some(e), [], [Event(ReadEvent, t.name), Event(HitKind(e), t.name)])
      else
        var rest := Probe(sel[1..], key);
        ProbeOutcome(rest.entry, [t.name] + rest.missed,
                     [Event(ReadEvent, t.name), Event(MissEvent, t.name)] + rest.events)
  }

  /** One probe step, taken at selected tier `i`. */
  lemma ProbeSuffixStep(sel: seq<Tier>, i: nat, key: Key)
    requires i < |sel|
    ensures key in sel[i].entries ==>
      Probe(sel[i..], key) == ProbeOutcome(Some(sel[i].entries[key]), [],
                                           [Event(ReadEvent, sel[i].name), Event(HitKind(sel[i].entries[key]), sel[i].name)])
    ensures key !in sel[i].entries ==>
      var rest := Probe(sel[i + 1..], key);
      Probe(sel[i..], key) == ProbeOutcome(rest.entry, [sel[i].name] + rest.missed,
                                           [Event(ReadEvent, sel[i].name), Event(MissEvent, sel[i].name)] + rest.events)
  {
    assert sel[i..][0] == sel[i];
    assert sel[i..][1..] == sel[i + 1..];
  }

  /** The events of tiers that were read and missed, in order. */
  function MissEvents(sel: seq<Tier>): seq<Event>
    decreases |sel|
  {
    if sel == [] then []
    else [Event(ReadEvent, sel[0].name), Event(MissEvent, sel[0].name)] + MissEvents(sel[1..])
  }

  /** The result of a read over the tiers `sel`: the entry found, the tiers
      after backfill, and the events reported. */
  datatype ReadOutcome = ReadOutcome(entry: Option<Entry>, stores: seq<Tier>, events: seq<Event>)

  /** `read_entry_from`: an empty selection reads nothing; a hit after misses
      is written back into the tiers that missed, selected by name among
      all configured tiers. `ReadFromCases` unfolds it and `ReadFromKeepsNames`
      shows that no tier is added, dropped or renamed. */
  function ReadFrom(stores: seq<Tier>, sel: seq<Tier>, key: Key): (r: ReadOutcome)
    ensures |r.stores| == |stores|
  {
    if sel == [] then ReadOutcome(None, stores, [])
    else
      var p := Probe(sel, key);
      if p.entry.None? then ReadOutcome(None, stores, p.events)
      else if p.missed == [] then ReadOutcome(p.entry, stores, p.events)
      else
        var backfill := WriteOp(key, p.entry.value);
        var only := NameList(p.missed);
        ReadOutcome(p.entry, FanOutTiers(stores, only, backfill),
                    p.events + OpEvents(SelectedStores(stores, only), backfill))
  }

  /** `read_entry`: read-through over the tiers `only` selects. The entry is
      what probing the selection finds; `ReadThroughFullMiss` and
      `ReadThroughBackfill` state what the tiers become. */
  function ReadThrough(stores: seq<Tier>, only: Only, key: Key): (r: ReadOutcome)
    ensures |r.stores| == |stores|
  {
    ReadFrom(stores, SelectedStores(stores, only), key)
  }

  /** Unfolds `ReadFrom` on a non-empty selection: the probe's outcome, and a
      backfill exactly when a hit followed misses. */
  lemma ReadFromCases(stores: seq<Tier>, sel: seq<Tier>, key: Key)
    requires sel != []
    ensures var p := Probe(sel, key);
      var r := ReadFrom(stores, sel, key);
      r.entry == p.entry &&
      (p.entry.Some? && p.missed != [] ==>
         r.stores == FanOutTiers(stores, NameList(p.missed), WriteOp(key, p.entry.value)) &&
         r.events == p.events + OpEvents(SelectedStores(stores, NameList(p.missed)), WriteOp(key, p.entry.value))) &&
      (!(p.entry.Some? && p.missed != []) ==> r.stores == stores && r.events == p.events)
  {
  }

  /** A read keeps the configured tiers, their order and their names: the
      backfill writes into existing tiers only. */
  lemma ReadFromKeepsNames(stores: seq<Tier>, sel: seq<Tier>, key: Key)
    ensures Names(ReadFrom(stores, sel, key).stores) == Names(stores)
    ensures DistinctNames(stores) ==> DistinctNames(ReadFrom(stores, sel, key).stores)
  {
    if sel != [] {
      ReadFromCases(stores, sel, key);
      var p := Probe(sel, key);
      if p.entry.Some? && p.missed != [] {
        FanOutKeepsNames(stores, NameList(p.missed), WriteOp(key, p.entry.value));
      }
    }
  }

  /** A probe ends at the first tier holding the key: the result is that
      tier's entry even when expired, the misses are the tiers before it, and
      the tiers after it are never read. */
  lemma {:induction false} ProbeStopsAtFirstHolder(sel: seq<Tier>, key: Key, k: nat)
    requires k < |sel| && key in sel[k].entries
    requires forall j :: 0 <= j < k ==> key !in sel[j].entries
    ensures Probe(sel, key)
         == ProbeOutcome(Some(sel[k].entries[key]), Names(sel[..k]),
                         MissEvents(sel[..k]) + [Event(ReadEvent, sel[k].name),
                                                 Event(HitKind(sel[k].entries[key]), sel[k].name)])
    decreases k
  {
    if k == 0 {
      assert sel[..0] == [];
      assert Names(sel[..0]) == [];
    } else {
      ProbeStopsAtFirstHolder(sel[1..], key, k - 1);
      assert sel[..k][0] == sel[0];
      assert sel[..k][1..] == sel[1..][..k - 1];
      NamesAppend([sel[0]], sel[1..][..k - 1]);
      assert sel[..k] == [sel[0]] + sel[1..][..k - 1];
    }
  }

  /** When no tier holds the key, every tier is read once, each misses, and
      the result is nothing. */
  lemma {:induction false} ProbeFullMiss(sel: seq<Tier>, key: Key)
    requires forall j :: 0 <= j < |sel| ==> key !in sel[j].entries
    ensures Probe(sel, key) == ProbeOutcome(None, Names(sel), MissEvents(sel))
    decreases |sel|
  {
    if sel != [] {
      ProbeFullMiss(sel[1..], key);
      NamesAppend([sel[0]], sel[1..]);
      assert sel == [sel[0]] + sel[1..];
    }
  }

  /** A probe finds nothing exactly when no tier holds the key. */
  lemma {:induction false} ProbeMissesIffAbsent(sel: seq<Tier>, key: Key)
    ensures Probe(sel, key).entry.None? <==> forall j :: 0 <= j < |sel| ==> key !in sel[j].entries
    decreases |sel|
  {
    if sel != [] {
      ProbeMissesIffAbsent(sel[1..], key);
      if key !in sel[0].entries {
        assert forall j :: 1 <= j < |sel| ==> sel[j] == sel[1..][j - 1];
      }
    }
  }

  /** Full miss: with no selected tier holding the key, the read returns
      nothing, writes no tier, and reports a read and a miss per selected tier. */
  lemma ReadThroughFullMiss(stores: seq<Tier>, only: Only, key: Key)
    requires forall t :: t in SelectedStores(stores, only) ==> key !in t.entries
    ensures var r := ReadThrough(stores, only, key);
      r.entry == None && r.stores == stores && r.events == MissEvents(SelectedStores(stores, only))
  {
    var sel := SelectedStores(stores, only);
    assert forall j :: 0 <= j < |sel| ==> sel[j] in sel;
    ProbeFullMiss(sel, key);
  }

  /** Backfill, tiers: a read whose first hit is selected tier `k` returns
      that tier's entry, writes it into exactly the selected tiers before `k`,
      and leaves the hitting tier, the tiers after it and the unselected tiers
      unchanged. */
  lemma ReadThroughBackfill(stores: seq<Tier>, only: Only, key: Key, k: nat)
    requires DistinctNames(stores)
    requires k < |SelectedStores(stores, only)|
    requires key in SelectedStores(stores, only)[k].entries
    requires forall j :: 0 <= j < k ==> key !in SelectedStores(stores, only)[j].entries
    ensures var sel := SelectedStores(stores, only);
      var e := sel[k].entries[key];
      var r := ReadThrough(stores, only, key);
      r.entry == Some(e) &&
      |r.stores| == |stores| &&
      forall i :: 0 <= i < |stores| ==>
        r.stores[i] == if stores[i] in sel[..k] then stores[i].(entries := stores[i].entries[key := e])
                       else stores[i]
  {
    var sel := SelectedStores(stores, only);
    ProbeStopsAtFirstHolder(sel, key, k);
    if k == 0 {
      assert sel[..k] == [];
    } else {
      BackfillSelectsMissed(stores, only, k);
      FanOutAt(stores, NameList(Names(sel[..k])), WriteOp(key, sel[k].entries[key]));
    }
  }

  /** Selecting by the names of the tiers probed before selected tier `k`
      picks exactly those tiers. */
  lemma BackfillSelectsMissed(stores: seq<Tier>, only: Only, k: nat)
    requires DistinctNames(stores)
    requires k <= |SelectedStores(stores, only)|
    ensures var sel := SelectedStores(stores, only);
      forall i :: 0 <= i < |stores| ==>
        (Selects(NameList(Names(sel[..k])), stores[i].name) <==> stores[i] in sel[..k])
  {
    var sel := SelectedStores(stores, only);
    var missed := Names(sel[..k]);
    SelectedMembership(stores, only);
    forall i | 0 <= i < |stores|
      ensures stores[i].name in missed <==> stores[i] in sel[..k]
    {
      if stores[i] in sel[..k] {
        var j :| 0 <= j < k && sel[..k][j] == stores[i];
        assert missed[j] == stores[i].name;
      }
      if stores[i].name in missed {
        var j :| 0 <= j < k && missed[j] == stores[i].name;
        assert sel[j] in sel;
        var i' :| 0 <= i' < |stores| && stores[i'] == sel[j];
        assert i' == i;
        assert sel[..k][j] == stores[i];
      }
    }
  }

  /** Backfill, events: the read reports a read and a miss for each tier
      before the hit, a read and a hit (or expired hit) for the hitting tier,
      and then one `write` per missed tier, in probe order; the hitting tier
      gets no write. */
  lemma ReadThroughBackfillEvents(stores: seq<Tier>, only: Only, key: Key, k: nat)
    requires DistinctNames(stores)
    requires k < |SelectedStores(stores, only)|
    requires key in SelectedStores(stores, only)[k].entries
    requires forall j :: 0 <= j < k ==> key !in SelectedStores(stores, only)[j].entries
    ensures var sel := SelectedStores(stores, only);
      var e := sel[k].entries[key];
      ReadThrough(stores, only, key).events
        == MissEvents(sel[..k]) + [Event(ReadEvent, sel[k].name), Event(HitKind(e), sel[k].name)]
           + OpEvents(sel[..k], WriteOp(key, e))
  {
    var sel := SelectedStores(stores, only);
    ProbeStopsAtFirstHolder(sel, key, k);
    if k == 0 {
      assert sel[..k] == [];
    } else {
      ReselectPrefix(stores, only, k);
    }
  }

  /** With a hit in the first selected tier nothing is written. */
  lemma ReadThroughFirstTierHit(stores: seq<Tier>, only: Only, key: Key)
    requires SelectedStores(stores, only) != []
    requires key in SelectedStores(stores, only)[0].entries
    ensures var sel := SelectedStores(stores, only);
      var r := ReadThrough(stores, only, key);
      r.entry == Some(sel[0].entries[key]) && r.stores == stores &&
      r.events == [Event(ReadEvent, sel[0].name), Event(HitKind(sel[0].entries[key]), sel[0].name)]
  {
  }

  /** Read-through only ever writes selected tiers, and only the key read. */
  lemma ReadThroughTouchesOnlySelected(stores: seq<Tier>, only: Only, key: Key)
    ensures var r := ReadThrough(stores, only, key);
      |r.stores| == |stores| &&
      forall i :: 0 <= i < |stores| ==>
        r.stores[i].name == stores[i].name &&
        (r.stores[i] == stores[i] ||
         (Selects(only, stores[i].name) && r.entry.Some? &&
          r.stores[i].entries == stores[i].entries[key := r.entry.value]))
  {
    var sel := SelectedStores(stores, only);
    var r := ReadThrough(stores, only, key);
    if sel != [] {
      var p := Probe(sel, key);
      if p.entry.Some? && p.missed != [] {
        FanOutAt(stores, NameList(p.missed), WriteOp(key, p.entry.value));
        ProbeMissedAreProbed(sel, key);
        SelectedMembership(stores, only);
        forall i | 0 <= i < |stores| && stores[i].name in p.missed
          ensures Selects(only, stores[i].name)
        {
          var j :| 0 <= j < |sel| && sel[j].name == stores[i].name;
          assert sel[j] in sel;
        }
      }
    }
  }

  /** Every name a probe records as missed is the name of a probed tier. */
  lemma {:induction false} ProbeMissedAreProbed(sel: seq<Tier>, key: Key)
    ensures forall n :: n in Probe(sel, key).missed ==> exists j :: 0 <= j < |sel| && sel[j].name == n
    decreases |sel|
  {
    if sel != [] && key !in sel[0].entries {
      ProbeMissedAreProbed(sel[1..], key);
      forall n | n in Probe(sel, key).missed
        ensures exists j :: 0 <= j < |sel| && sel[j].name == n
      {
        if n != sel[0].name {
          assert Probe(sel, key).missed == [sel[0].name] + Probe(sel[1..], key).missed;
          assert n in Probe(sel[1..], key).missed;
          var j :| 0 <= j < |sel[1..]| && sel[1..][j].name == n;
          assert sel[j + 1].name == n;
        }
      }
    }
  }
}
