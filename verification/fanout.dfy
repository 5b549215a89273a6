/** Applying one operation to every selected tier: `write_entry` and
    `delete_entry` over the tiers `only` selects, `clear` and `cleanup` over
    every tier. Each tier reached is changed by the operation; every other
    tier is left as it was. */
module FanOut {
  import opened Tiers

  /** What a fan-out does to each tier it reaches. */
  datatype TierOp = WriteOp(key: Key, entry: Entry) | DeleteOp(key: Key) | ClearOp | CleanupOp

  /** One backend call: a write stores the entry under the key, a delete
      drops the key, `clear` empties the tier and `cleanup` keeps only the
      unexpired entries. The tier's name never changes. */
  function Apply(op: TierOp, t: Tier): (r: Tier)
    ensures r.name == t.name
    ensures op.WriteOp? ==> op.key in r.entries && r.entries[op.key] == op.entry
    ensures op.DeleteOp? ==> op.key !in r.entries
    ensures op.ClearOp? ==> r.entries == map[]
    ensures op.CleanupOp? ==> r.entries.Keys <= t.entries.Keys
  {
    match op
    case WriteOp(k, e) => t.(entries := t.entries[k := e])
    case DeleteOp(k) => t.(entries := t.entries - {k})
    case ClearOp => t.(entries := map[])
    case CleanupOp => t.(entries := map k | k in t.entries && !t.entries[k].expired :: t.entries[k])
  }

  /** One tier of a fan-out: the operation reaches it exactly when `only`
      selects it. */
  function Step(op: TierOp, only: Only, t: Tier): Tier
  {
    if Selects(only, t.name) then Apply(op, t) else t
  }

  /** The tiers after `op` has been applied to each tier `only` selects. */
  function FanOutTiers(stores: seq<Tier>, only: Only, op: TierOp): (r: seq<Tier>)
    ensures |r| == |stores|
    decreases |stores|
  {
    if stores == [] then [] else [Step(op, only, stores[0])] + FanOutTiers(stores[1..], only, op)
  }

  /** Tier `i` after a fan-out is tier `i` before it, stepped. */
  lemma {:induction false} FanOutAt(stores: seq<Tier>, only: Only, op: TierOp)
    ensures forall i :: 0 <= i < |stores| ==> FanOutTiers(stores, only, op)[i] == Step(op, only, stores[i])
    decreases |stores|
  {
    if stores != [] {
      FanOutAt(stores[1..], only, op);
    }
  }

  /** A fan-out over a growing prefix: the next tier is stepped and appended. */
  lemma FanOutPrefixStep(stores: seq<Tier>, i: nat, only: Only, op: TierOp)
    requires i < |stores|
    ensures FanOutTiers(stores[..i + 1], only, op) == FanOutTiers(stores[..i], only, op) + [Step(op, only, stores[i])]
  {
    var a := FanOutTiers(stores[..i + 1], only, op);
    var b := FanOutTiers(stores[..i], only, op) + [Step(op, only, stores[i])];
    FanOutAt(stores[..i + 1], only, op);
    FanOutAt(stores[..i], only, op);
    assert |a| == |b|;
    forall j | 0 <= j < |a|
      ensures a[j] == b[j]
    {
      if j < i {
        assert stores[..i + 1][j] == stores[..i][j];
      }
    }
  }

  /** The event reported around each per-tier call: writes and deletes are
      instrumented, `clear` and `cleanup` are not. */
  function EventKindOf(op: TierOp): Option<EventKind>
  {
    match op
    case WriteOp(_, _) => Some(WriteEvent)
    case DeleteOp(_) => Some(DeleteEvent)
    case _ => None
  }

  /** The events of a fan-out over the tiers `sel`, one per tier, in order. */
  function OpEvents(sel: seq<Tier>, op: TierOp): seq<Event>
    decreases |sel|
  {
    match EventKindOf(op)
    case None => []
    case Some(kind) => if sel == [] then [] else [Event(kind, sel[0].name)] + OpEvents(sel[1..], op)
  }

  lemma {:induction false} OpEventsAppend(a: seq<Tier>, b: seq<Tier>, op: TierOp)
    ensures OpEvents(a + b, op) == OpEvents(a, op) + OpEvents(b, op)
    decreases |a|
  {
    if a == [] {
      assert a + b == b;
    } else if EventKindOf(op).Some? {
      assert (a + b)[1..] == a[1..] + b;
      OpEventsAppend(a[1..], b, op);
    }
  }

  /** A fan-out keeps the configured tiers, their order and their names. */
  lemma FanOutKeepsNames(stores: seq<Tier>, only: Only, op: TierOp)
    ensures |FanOutTiers(stores, only, op)| == |stores|
    ensures Names(FanOutTiers(stores, only, op)) == Names(stores)
    ensures DistinctNames(stores) ==> DistinctNames(FanOutTiers(stores, only, op))
  {
    FanOutAt(stores, only, op);
    var r := FanOutTiers(stores, only, op);
    assert forall i :: 0 <= i < |stores| ==> r[i].name == stores[i].name;
  }

  /** `write_entry`: every selected tier holds the entry under the key and
      keeps its other keys; every other tier is unchanged. */
  lemma WriteReachesExactlySelected(stores: seq<Tier>, only: Only, key: Key, e: Entry, i: nat)
    requires i < |stores|
    ensures var r := FanOutTiers(stores, only, WriteOp(key, e));
      r[i].name == stores[i].name &&
      (Selects(only, stores[i].name) ==>
        key in r[i].entries && r[i].entries[key] == e &&
        forall k :: k != key ==> (k in r[i].entries <==> k in stores[i].entries) &&
                                 (k in stores[i].entries ==> r[i].entries[k] == stores[i].entries[k])) &&
      (!Selects(only, stores[i].name) ==> r[i] == stores[i])
  {
    FanOutAt(stores, only, WriteOp(key, e));
  }

  /** `delete_entry`: no selected tier holds the key afterwards, and only the
      key is removed; every other tier is unchanged. */
  lemma DeleteReachesExactlySelected(stores: seq<Tier>, only: Only, key: Key, i: nat)
    requires i < |stores|
    ensures var r := FanOutTiers(stores, only, DeleteOp(key));
      r[i].name == stores[i].name &&
      (Selects(only, stores[i].name) ==>
        key !in r[i].entries &&
        forall k :: k != key ==> (k in r[i].entries <==> k in stores[i].entries) &&
                                 (k in stores[i].entries ==> r[i].entries[k] == stores[i].entries[k])) &&
      (!Selects(only, stores[i].name) ==> r[i] == stores[i])
  {
    FanOutAt(stores, only, DeleteOp(key));
  }

  /** `clear` empties every tier, whatever it held. */
  lemma ClearEmptiesEveryTier(stores: seq<Tier>)
    ensures var r := FanOutTiers(stores, Absent, ClearOp);
      |r| == |stores| && forall i :: 0 <= i < |stores| ==> r[i] == Tier(stores[i].name, map[])
  {
    FanOutAt(stores, Absent, ClearOp);
  }

  /** `cleanup` leaves every tier with exactly its unexpired entries. */
  lemma CleanupKeepsUnexpired(stores: seq<Tier>, i: nat)
    requires i < |stores|
    ensures var r := FanOutTiers(stores, Absent, CleanupOp);
      r[i].name == stores[i].name &&
      forall k :: (k in r[i].entries <==> k in stores[i].entries && !stores[i].entries[k].expired) &&
                  (k in r[i].entries ==> r[i].entries[k] == stores[i].entries[k])
  {
    FanOutAt(stores, Absent, CleanupOp);
  }

  /** A write's events name each selected tier once, in configured order. */
  lemma {:induction false} WriteEventsFollowSelection(sel: seq<Tier>, key: Key, e: Entry)
    ensures var ev := OpEvents(sel, WriteOp(key, e));
      |ev| == |sel| && forall j :: 0 <= j < |ev| ==> ev[j] == Event(WriteEvent, sel[j].name)
    decreases |sel|
  {
    if sel != [] {
      WriteEventsFollowSelection(sel[1..], key, e);
    }
  }
}
