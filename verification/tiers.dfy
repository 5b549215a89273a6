/** The data every part of the multi-tier cache shares: entries, named tiers,
    the per-call `only:` option that selects tiers, and the instrumentation
    events reported around each per-tier call. */
module Tiers {

  datatype Option<T> = None | Some(value: T)

  type Name = string
  type Key = string

  /** An entry as moved between tiers: its payload (an integer, so that
      counters can be modelled) and whether it has expired. */
  datatype Entry = Entry(value: int, expired: bool)

  /** One configured backend store: its name and the entries it holds. */
  datatype Tier = Tier(name: Name, entries: map<Key, Entry>)

  /** The `only:` option of a call: absent, a single name, or an array of names. */
  datatype Only = Absent | OneName(name: Name) | NameList(names: seq<Name>)

  /** The `multi_layer_cache.*` notifications. */
  datatype EventKind = ReadEvent | WriteEvent | DeleteEvent | HitEvent | MissEvent | ExpiredHitEvent

  datatype Event = Event(kind: EventKind, cacheName: Name)

  function Names(stores: seq<Tier>): (r: seq<Name>)
    ensures |r| == |stores|
    ensures forall i :: 0 <= i < |stores| ==> r[i] == stores[i].name
    decreases |stores|
  {
    if stores == [] then [] else [stores[0].name] + Names(stores[1..])
  }

  /** Tier names are the keys of a hash, hence distinct. */
  predicate DistinctNames(stores: seq<Tier>)
  {
    forall i, j :: 0 <= i < j < |stores| ==> stores[i].name != stores[j].name
  }

  /** Distinctness depends on the names alone. */
  lemma SameNamesDistinct(a: seq<Tier>, b: seq<Tier>)
    requires Names(a) == Names(b)
    ensures DistinctNames(a) ==> DistinctNames(b)
  {
    assert |a| == |b|;
    forall i | 0 <= i < |b|
      ensures b[i].name == a[i].name
    {
      assert Names(b)[i] == Names(a)[i];
    }
  }

  /** A non-array `only` is wrapped into a one-element list. */
  function OnlyNames(only: Only): seq<Name>
    requires !only.Absent?
  {
    match only
    case OneName(n) => [n]
    case NameList(ns) => ns
  }

  predicate Selects(only: Only, name: Name)
  {
    only.Absent? || name in OnlyNames(only)
  }

  /** `selected_stores`: every tier when `only` is absent, otherwise the tiers
      whose names `only` lists, in configured order; unknown names select nothing. */
  function SelectedStores(stores: seq<Tier>, only: Only): (r: seq<Tier>)
    ensures only.Absent? ==> r == stores
    ensures |r| <= |stores|
    decreases |stores|
  {
    if only.Absent? then stores
    else if stores == [] then []
    else if Selects(only, stores[0].name) then [stores[0]] + SelectedStores(stores[1..], only)
    else SelectedStores(stores[1..], only)
  }

  /** The selection holds exactly the configured tiers that `only` names. */
  lemma {:induction false} SelectedMembership(stores: seq<Tier>, only: Only)
    ensures forall t :: t in SelectedStores(stores, only) <==> t in stores && Selects(only, t.name)
    decreases |stores|
  {
    if !only.Absent? && stores != [] {
      SelectedMembership(stores[1..], only);
      assert stores == [stores[0]] + stores[1..];
    }
  }

  /** One step of the filter, also when `only` is absent. */
  lemma SelectedCons(stores: seq<Tier>, only: Only)
    requires stores != []
    ensures SelectedStores(stores, only)
         == if Selects(only, stores[0].name) then [stores[0]] + SelectedStores(stores[1..], only)
            else SelectedStores(stores[1..], only)
  {
    if only.Absent? {
      assert stores == [stores[0]] + stores[1..];
    }
  }

  /** Selection preserves the configured order: it distributes over concatenation. */
  lemma {:induction false} SelectedStoresAppend(a: seq<Tier>, b: seq<Tier>, only: Only)
    ensures SelectedStores(a + b, only) == SelectedStores(a, only) + SelectedStores(b, only)
    decreases |a|
  {
    if only.Absent? {
    } else if a == [] {
      assert a + b == b;
    } else {
      assert (a + b)[0] == a[0];
      assert (a + b)[1..] == a[1..] + b;
      SelectedStoresAppend(a[1..], b, only);
      if Selects(only, a[0].name) {
        calc {
          SelectedStores(a + b, only);
          [a[0]] + SelectedStores(a[1..] + b, only);
          [a[0]] + (SelectedStores(a[1..], only) + SelectedStores(b, only));
          ([a[0]] + SelectedStores(a[1..], only)) + SelectedStores(b, only);
        }
      }
    }
  }

  /** Selection of one more tier at the end: it joins the selection exactly
      when `only` names it. */
  lemma SelectedSnoc(a: seq<Tier>, t: Tier, only: Only)
    ensures Selects(only, t.name) ==> SelectedStores(a + [t], only) == SelectedStores(a, only) + [t]
    ensures !Selects(only, t.name) ==> SelectedStores(a + [t], only) == SelectedStores(a, only)
  {
    SelectedStoresAppend(a, [t], only);
    SelectedCons([t], only);
    assert [t][1..] == [];
  }

  /** Selection over a growing prefix of the configured tiers. */
  lemma SelectedPrefixStep(stores: seq<Tier>, i: nat, only: Only)
    requires i < |stores|
    ensures Selects(only, stores[i].name) ==>
              SelectedStores(stores[..i + 1], only) == SelectedStores(stores[..i], only) + [stores[i]]
    ensures !Selects(only, stores[i].name) ==>
              SelectedStores(stores[..i + 1], only) == SelectedStores(stores[..i], only)
  {
    assert stores[..i + 1] == stores[..i] + [stores[i]];
    SelectedSnoc(stores[..i], stores[i], only);
  }

  /** A single name selects exactly what the one-element array selects. */
  lemma {:induction false} SelectedOneName(stores: seq<Tier>, name: Name)
    ensures SelectedStores(stores, OneName(name)) == SelectedStores(stores, NameList([name]))
    decreases |stores|
  {
    if stores != [] {
      SelectedOneName(stores[1..], name);
    }
  }

  lemma NamesAppend(a: seq<Tier>, b: seq<Tier>)
    ensures Names(a + b) == Names(a) + Names(b)
  {
    assert forall i :: 0 <= i < |a + b| ==> Names(a + b)[i] == (Names(a) + Names(b))[i];
  }

  /** Selecting from distinctly named tiers gives distinctly named tiers. */
  lemma {:induction false} SelectedDistinct(stores: seq<Tier>, only: Only)
    requires DistinctNames(stores)
    ensures DistinctNames(SelectedStores(stores, only))
    decreases |stores|
  {
    if stores != [] {
      SelectedCons(stores, only);
      var rest := SelectedStores(stores[1..], only);
      SelectedDistinct(stores[1..], only);
      SelectedMembership(stores[1..], only);
      forall t | t in rest
        ensures t.name != stores[0].name
      {
        var j :| 0 <= j < |stores[1..]| && stores[1..][j] == t;
        assert stores[j + 1] == t;
      }
    }
  }

  /** No tier selected from the rest carries the first tier's name. */
  lemma NoOtherTierNamed(stores: seq<Tier>, only: Only)
    requires DistinctNames(stores) && stores != []
    ensures forall u :: u in SelectedStores(stores[1..], only) ==> u.name != stores[0].name
  {
    SelectedMembership(stores[1..], only);
    forall u | u in SelectedStores(stores[1..], only)
      ensures u.name != stores[0].name
    {
      var j :| 0 <= j < |stores[1..]| && stores[1..][j] == u;
      assert stores[j + 1] == u;
    }
  }

  /** A name no tier carries does not change a selection by list. */
  lemma {:induction false} SelectedIgnoresForeignName(stores: seq<Tier>, x: Name, ns: seq<Name>)
    requires forall i :: 0 <= i < |stores| ==> stores[i].name != x
    ensures SelectedStores(stores, NameList([x] + ns)) == SelectedStores(stores, NameList(ns))
    decreases |stores|
  {
    if stores != [] {
      SelectedIgnoresForeignName(stores[1..], x, ns);
    }
  }

  lemma {:induction false} SelectedNothing(stores: seq<Tier>)
    ensures SelectedStores(stores, NameList([])) == []
    decreases |stores|
  {
    if stores != [] {
      SelectedNothing(stores[1..]);
    }
  }

  /** Re-selecting, by name, a prefix of a selection gives back that prefix:
      the tiers a read missed are exactly the tiers its backfill reaches. */
  lemma {:induction false} ReselectPrefix(stores: seq<Tier>, only: Only, k: nat)
    requires DistinctNames(stores)
    requires k <= |SelectedStores(stores, only)|
    ensures SelectedStores(stores, NameList(Names(SelectedStores(stores, only)[..k])))
         == SelectedStores(stores, only)[..k]
    decreases |stores|, 1
  {
    if k == 0 {
      assert Names(SelectedStores(stores, only)[..0]) == [];
      SelectedNothing(stores);
    } else if Selects(only, stores[0].name) {
      ReselectPrefixHead(stores, only, k);
    } else {
      ReselectPrefixSkip(stores, only, k);
    }
  }

  lemma {:induction false} ReselectPrefixHead(stores: seq<Tier>, only: Only, k: nat)
    requires DistinctNames(stores)
    requires 0 < k <= |SelectedStores(stores, only)|
    requires Selects(only, stores[0].name)
    ensures SelectedStores(stores, NameList(Names(SelectedStores(stores, only)[..k])))
         == SelectedStores(stores, only)[..k]
    decreases |stores|, 0
  {
    var t, rest := stores[0], stores[1..];
    var sel := SelectedStores(stores, only);
    var selRest := SelectedStores(rest, only);
    SelectedCons(stores, only);
    assert sel[..k] == [t] + selRest[..k - 1];
    var ns' := Names(selRest[..k - 1]);
    NamesAppend([t], selRest[..k - 1]);
    assert Names(sel[..k]) == [t.name] + ns';
    DistinctTail(stores);
    SelectedIgnoresForeignName(rest, t.name, ns');
    ReselectPrefix(rest, only, k - 1);
    calc {
      SelectedStores(stores, NameList(Names(sel[..k])));
      SelectedStores(stores, NameList([t.name] + ns'));
      { SelectedCons(stores, NameList([t.name] + ns')); }
      [t] + SelectedStores(rest, NameList([t.name] + ns'));
      [t] + SelectedStores(rest, NameList(ns'));
      [t] + selRest[..k - 1];
    }
  }

  /** The tiers after the first of distinctly named tiers are distinctly
      named, and none carries the first tier's name. */
  lemma DistinctTail(stores: seq<Tier>)
    requires DistinctNames(stores) && stores != []
    ensures DistinctNames(stores[1..])
    ensures forall i :: 0 <= i < |stores[1..]| ==> stores[1..][i].name != stores[0].name
  {
    forall i | 0 <= i < |stores[1..]|
      ensures stores[1..][i].name != stores[0].name
    {
      assert stores[1..][i] == stores[i + 1];
    }
  }

  lemma {:induction false} ReselectPrefixSkip(stores: seq<Tier>, only: Only, k: nat)
    requires DistinctNames(stores)
    requires 0 < k <= |SelectedStores(stores, only)|
    requires !Selects(only, stores[0].name)
    ensures SelectedStores(stores, NameList(Names(SelectedStores(stores, only)[..k])))
         == SelectedStores(stores, only)[..k]
    decreases |stores|, 0
  {
    var t, rest := stores[0], stores[1..];
    var sel := SelectedStores(stores, only);
    SelectedCons(stores, only);
    assert sel == SelectedStores(rest, only);
    var ns := Names(sel[..k]);
    NoOtherTierNamed(stores, only);
    forall i | 0 <= i < k
      ensures ns[i] != t.name
    {
      assert sel[i] in sel;
    }
    assert !Selects(NameList(ns), t.name);
    SelectedCons(stores, NameList(ns));
    assert DistinctNames(rest);
    ReselectPrefix(rest, only, k);
  }
}
