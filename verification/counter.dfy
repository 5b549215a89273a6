/** Counters (`modify_value`, `increment`, `decrement`): a read-through read of
    the key, then, when an entry was found, a fan-out write of its payload plus
    the amount to the same selected tiers. A key that nothing holds gives no
    result and is not created. */
module Counter {
  import opened Tiers
  import opened FanOut
  import opened ReadPath

  datatype ModifyOutcome = ModifyOutcome(result: Option<int>, stores: seq<Tier>, events: seq<Event>)

  /** `modify_value`: read, add the amount, write the sum back as a fresh
      (unexpired) entry to the selected tiers, and return it. `ModifyWritesSum`
      and `ModifyMissingKey` state both outcomes. */
  function Modify(stores: seq<Tier>, only: Only, key: Key, amount: int): (r: ModifyOutcome)
  {
    var rd := ReadThrough(stores, only, key);
    match rd.entry
    case None => ModifyOutcome(None, rd.stores, rd.events)
    case Some(e) =>
      var n := e.value + amount;
      var op := WriteOp(key, Entry(n, false));
      ModifyOutcome(Some(n), FanOutTiers(rd.stores, only, op),
                    rd.events + OpEvents(SelectedStores(rd.stores, only), op))
  }

  /** Unfolds `Modify` when the read finds an entry. */
  lemma ModifyFound(stores: seq<Tier>, only: Only, key: Key, amount: int)
    requires ReadThrough(stores, only, key).entry.Some?
    ensures var rd := ReadThrough(stores, only, key);
      var op := WriteOp(key, Entry(rd.entry.value.value + amount, false));
      Modify(stores, only, key, amount)
        == ModifyOutcome(Some(rd.entry.value.value + amount), FanOutTiers(rd.stores, only, op),
                         rd.events + OpEvents(SelectedStores(rd.stores, only), op))
  {
  }

  /** A counter that no selected tier holds: nothing is returned and no tier
      changes, so the key is not created. */
  lemma ModifyMissingKey(stores: seq<Tier>, only: Only, key: Key, amount: int)
    requires forall t :: t in SelectedStores(stores, only) ==> key !in t.entries
    ensures Modify(stores, only, key, amount).result == None
    ensures Modify(stores, only, key, amount).stores == stores
  {
    ReadThroughFullMiss(stores, only, key);
  }

  /** A counter that a read finds: the result is the payload read plus the
      amount, every selected tier then holds exactly that value under the key
      (as an unexpired entry) and keeps its other keys, and every unselected
      tier is unchanged. */
  lemma ModifyWritesSum(stores: seq<Tier>, only: Only, key: Key, amount: int)
    requires ReadThrough(stores, only, key).entry.Some?
    ensures var n := ReadThrough(stores, only, key).entry.value.value + amount;
      var m := Modify(stores, only, key, amount);
      m.result == Some(n) &&
      |m.stores| == |stores| &&
      forall i :: 0 <= i < |stores| ==>
        m.stores[i] == if Selects(only, stores[i].name)
                       then stores[i].(entries := stores[i].entries[key := Entry(n, false)])
                       else stores[i]
  {
    var rd := ReadThrough(stores, only, key);
    var e := rd.entry.value;
    var n := e.value + amount;
    var op := WriteOp(key, Entry(n, false));
    ReadThroughTouchesOnlySelected(stores, only, key);
    ModifyFound(stores, only, key, amount);
    FanOutAt(rd.stores, only, op);
    var m := Modify(stores, only, key, amount);
    forall i | 0 <= i < |stores|
      ensures m.stores[i] == if Selects(only, stores[i].name)
                             then stores[i].(entries := stores[i].entries[key := Entry(n, false)])
                             else stores[i]
    {
      var t := stores[i];
      var u := rd.stores[i];
      assert u == t || (Selects(only, t.name) && u == t.(entries := t.entries[key := e]));
      Overwrite(t, u, key, e, Entry(n, false));
      assert m.stores[i] == Step(op, only, u);
    }
  }

  /** Writing a key again overwrites whatever a backfill put there. */
  lemma Overwrite(t: Tier, u: Tier, key: Key, e: Entry, e': Entry)
    requires u == t || u == t.(entries := t.entries[key := e])
    ensures u.name == t.name
    ensures u.(entries := u.entries[key := e']) == t.(entries := t.entries[key := e'])
  {
    if u != t {
      assert u.entries[key := e'] == t.entries[key := e'];
    }
  }

  /** Every tier `only` selects holds the counter `w` under the key as an
      unexpired entry, and at least one tier is selected. */
  ghost predicate CounterHeld(stores: seq<Tier>, only: Only, key: Key, w: int)
  {
    (exists i :: 0 <= i < |stores| && Selects(only, stores[i].name)) &&
    forall i :: 0 <= i < |stores| && Selects(only, stores[i].name) ==>
      key in stores[i].entries && stores[i].entries[key] == Entry(w, false)
  }

  /** A successful modify leaves the sum in every selected tier. */
  lemma ModifyHoldsSum(stores: seq<Tier>, only: Only, key: Key, amount: int)
    requires ReadThrough(stores, only, key).entry.Some?
    ensures var n := ReadThrough(stores, only, key).entry.value.value + amount;
      Modify(stores, only, key, amount).result == Some(n) &&
      CounterHeld(Modify(stores, only, key, amount).stores, only, key, n)
  {
    var n := ReadThrough(stores, only, key).entry.value.value + amount;
    var i0 := SomeSelected(stores, only, key);
    ModifyWritesSum(stores, only, key, amount);
    var m := Modify(stores, only, key, amount).stores;
    assert Selects(only, m[i0].name);
    forall i | 0 <= i < |m| && Selects(only, m[i].name)
      ensures key in m[i].entries && m[i].entries[key] == Entry(n, false)
    {
      assert m[i].name == stores[i].name;
    }
  }

  /** A read that finds something has at least one selected tier. */
  lemma SomeSelected(stores: seq<Tier>, only: Only, key: Key) returns (i0: nat)
    requires ReadThrough(stores, only, key).entry.Some?
    ensures i0 < |stores| && Selects(only, stores[i0].name)
  {
    var sel := SelectedStores(stores, only);
    ReadThroughEntry(stores, only, key);
    assert sel != [];
    SelectedMembership(stores, only);
    assert sel[0] in sel;
    i0 :| 0 <= i0 < |stores| && stores[i0] == sel[0];
  }

  /** A counter held uniformly is what a read-through returns. */
  lemma HeldCounterRead(stores: seq<Tier>, only: Only, key: Key, w: int)
    requires CounterHeld(stores, only, key, w)
    ensures ReadThrough(stores, only, key).entry == Some(Entry(w, false))
  {
    var i0 :| 0 <= i0 < |stores| && Selects(only, stores[i0].name);
    ReadAfterUniformWrite(stores, only, key, Entry(w, false), i0);
  }

  /** After a successful modify, a read-through of the same selection finds
      the new value, as an unexpired entry. */
  lemma ModifyThenRead(stores: seq<Tier>, only: Only, key: Key, amount: int)
    requires ReadThrough(stores, only, key).entry.Some?
    ensures var m := Modify(stores, only, key, amount);
      m.result == Some(ReadThrough(stores, only, key).entry.value.value + amount) &&
      ReadThrough(m.stores, only, key).entry == Some(Entry(m.result.value, false))
  {
    ModifyHoldsSum(stores, only, key, amount);
    var m := Modify(stores, only, key, amount);
    HeldCounterRead(m.stores, only, key, m.result.value);
  }

  /** What a read-through returns is what the probe of the selection finds. */
  lemma ReadThroughEntry(stores: seq<Tier>, only: Only, key: Key)
    ensures ReadThrough(stores, only, key).entry == Probe(SelectedStores(stores, only), key).entry
  {
  }

  /** When some tier is selected and every selected tier holds the same
      entry under the key, a read-through returns that entry. */
  lemma ReadAfterUniformWrite(stores: seq<Tier>, only: Only, key: Key, e: Entry, i0: nat)
    requires i0 < |stores| && Selects(only, stores[i0].name)
    requires forall i :: 0 <= i < |stores| && Selects(only, stores[i].name) ==>
               key in stores[i].entries && stores[i].entries[key] == e
    ensures ReadThrough(stores, only, key).entry == Some(e)
  {
    var sel := SelectedStores(stores, only);
    SelectedMembership(stores, only);
    assert stores[i0] in sel;
    assert sel[0] in sel;
    var i1 :| 0 <= i1 < |stores| && stores[i1] == sel[0];
    ReadThroughEntry(stores, only, key);
  }

  /** From a counter held by every selected tier, a modify returns the held
      value plus the amount and leaves that sum held: successive increments
      and decrements compose. */
  lemma HeldCounterModify(stores: seq<Tier>, only: Only, key: Key, w: int, amount: int)
    requires CounterHeld(stores, only, key, w)
    ensures Modify(stores, only, key, amount).result == Some(w + amount)
    ensures CounterHeld(Modify(stores, only, key, amount).stores, only, key, w + amount)
  {
    HeldCounterRead(stores, only, key, w);
    ModifyHoldsSum(stores, only, key, amount);
  }

  /** `decrement` by the amount an `increment` added gives back the value
      that was read before the increment. */
  lemma DecrementUndoesIncrement(stores: seq<Tier>, only: Only, key: Key, amount: int)
    requires ReadThrough(stores, only, key).entry.Some?
    ensures Modify(stores, only, key, amount).result
         == Some(ReadThrough(stores, only, key).entry.value.value + amount)
    ensures Modify(Modify(stores, only, key, amount).stores, only, key, -amount).result
         == Some(ReadThrough(stores, only, key).entry.value.value)
  {
    var v := ReadThrough(stores, only, key).entry.value.value;
    ModifyHoldsSum(stores, only, key, amount);
    var up := Modify(stores, only, key, amount);
    HeldCounterModify(up.stores, only, key, v + amount, -amount);
    assert v + amount + -amount == v;
  }
}
