# Level2: a multi-tier ActiveSupport cache store, modelled in Dafny

`ActiveSupport::Cache::Level2` stacks an ordered set of named backend cache
stores (tiers) into one logical cache. Reads probe the tiers in their
configured order and stop at the first tier that returns an entry. That
entry is then written back ("backfilled") into the tiers that missed.
Writes and deletes fan out to every tier, or only to the tiers named by
the per-call `only:` option. `clear` and `cleanup` go to every tier.
`increment` and `decrement` read the counter, add the amount, and write the
sum back. Reads, writes and deletes report each per-tier call as a
`multi_layer_cache.*` notification: `read`, `hit`, `expired_hit`, `miss`,
`write`, `delete`. `clear` and `cleanup` report nothing.
The store is named by its `:name` option. Its keys are scoped by a
namespace made from that name and any namespace proc the caller supplied.

The model has six modules:

- `Tiers` (`tiers.dfy`): entries, named tiers, the `only:` option and tier
  selection (`selected_stores`).
- `FanOut` (`fanout.dfy`): one operation applied to each selected tier, and
  the events it reports.
- `ReadPath` (`readthrough.dfy`): the lazy probe, the backfill and the
  read-through (`read_entry_from`, `read_entry`) as functions.
- `Counter` (`counter.dfy`): `modify_value` as a function, with its
  properties.
- `Config` (`config.dfy`): the constructor's view of the options hash. It
  covers the store name, the tiers and the namespace proc.
- `Level2Cache` (`level2.dfy`): the class `Level2`. Its field `stores` is
  the tier sequence, and the operations update it in place. A ghost field
  `log` records the notifications. Each method is proved to produce exactly
  the tiers, result and events of the functions above. The fan-out loop
  (`EachSelectedTier`) and the probe loop (`ProbeTiers`) are methods with
  loop invariants, proved against `FanOutTiers` and `Probe`. `ReadFromTiers`
  runs the probe loop and then the backfill fan-out, and is proved against
  `ReadFrom`.

Tiers are modelled as a sequence of `(name, map<Key, Entry>)` in hash order.
An `Entry` carries an integer payload and an `expired` flag. A backend
"read" returns the entry stored under the key, expired or not. A backend
"write" stores the entry. What each backend's `write` answers is a
parameter of `WriteEntry`, given by tier name.

In the code, `clear`, `cleanup` and `delete_entry` visit the tiers one after
another with `each`. Only `write_entry` starts one thread per tier; the
model runs those writes one after another too (see Left out).

## Model

| member | source | states |
|---|---|---|
| Tiers.SelectedStores | lib/active_support/cache/level2.rb:120-129 | with no `only` every tier is selected; a selection never has more tiers than are configured |
| Tiers.SelectedMembership | lib/active_support/cache/level2.rb:120-129 | a tier is selected exactly when it is configured and `only` is absent or lists its name |
| Tiers.SelectedStoresAppend | lib/active_support/cache/level2.rb:127 | selection keeps configured order: it distributes over concatenation of tier lists |
| Tiers.SelectedOneName | lib/active_support/cache/level2.rb:126 | a non-array `only` selects exactly what the one-element array selects |
| Tiers.SelectedIgnoresForeignName | lib/active_support/cache/level2.rb:127 | a name that no tier carries does not change the selection |
| Tiers.SelectedNothing | lib/active_support/cache/level2.rb:127 | an empty `only` list selects no tier |
| Tiers.SelectedDistinct | lib/active_support/cache/level2.rb:127 | selecting from distinctly named tiers yields distinctly named tiers |
| Tiers.ReselectPrefix | lib/active_support/cache/level2.rb:101-102 | selecting all tiers by the names of a prefix of a selection gives back exactly that prefix |
| FanOut.Apply | lib/active_support/cache/level2.rb:32-69 | one backend call: a write leaves the entry under the key, a delete removes the key, `clear` leaves the tier empty, `cleanup` adds no key; the tier keeps its name |
| FanOut.FanOutTiers | lib/active_support/cache/level2.rb:55-77 | a fan-out keeps the number of tiers |
| FanOut.FanOutAt | lib/active_support/cache/level2.rb:55-69 | after a fan-out each tier is the old tier with the operation applied if selected, and unchanged otherwise |
| FanOut.FanOutKeepsNames | lib/active_support/cache/level2.rb:32-69 | a fan-out keeps the number, order and names of the tiers |
| FanOut.WriteReachesExactlySelected | lib/active_support/cache/level2.rb:55-61 | every selected tier holds the written entry under the key and keeps its other keys; unselected tiers are unchanged |
| FanOut.DeleteReachesExactlySelected | lib/active_support/cache/level2.rb:63-69 | no selected tier holds the key afterwards, other keys are kept, unselected tiers are unchanged |
| FanOut.ClearEmptiesEveryTier | lib/active_support/cache/level2.rb:36-38 | `clear` leaves every tier, selected or not, empty |
| FanOut.CleanupKeepsUnexpired | lib/active_support/cache/level2.rb:32-34 | `cleanup` leaves every tier with exactly its unexpired entries |
| FanOut.WriteEventsFollowSelection | lib/active_support/cache/level2.rb:56-58 | a write reports one `write` event per selected tier, in selection order |
| ReadPath.ReadFrom | lib/active_support/cache/level2.rb:79-106 | a read never adds or removes a tier |
| ReadPath.ReadThrough | lib/active_support/cache/level2.rb:50-53 | a read-through never adds or removes a tier |
| ReadPath.ReadFromKeepsNames | lib/active_support/cache/level2.rb:79-106 | a read keeps the number, order and names of the tiers, so distinct names stay distinct |
| ReadPath.ProbeStopsAtFirstHolder | lib/active_support/cache/level2.rb:84-97 | the probe returns the first holder's entry, even when expired; it records the earlier tiers as misses, reports read/miss for each of them, then read and hit or expired_hit, and reads nothing after |
| ReadPath.ProbeFullMiss | lib/active_support/cache/level2.rb:84-97 | with no holder, every tier is read once and misses, and the result is nothing |
| ReadPath.ProbeMissesIffAbsent | lib/active_support/cache/level2.rb:97-99 | the probe finds nothing if and only if no probed tier holds the key |
| ReadPath.ProbeMissedAreProbed | lib/active_support/cache/level2.rb:94 | every name recorded as missed is the name of a probed tier |
| ReadPath.ReadThroughFullMiss | lib/active_support/cache/level2.rb:80-99 | a full miss returns nothing, writes no tier and reports a read and a miss per selected tier |
| ReadPath.ReadThroughBackfill | lib/active_support/cache/level2.rb:99-105 | a hit at selected tier k returns its entry and writes it into exactly the selected tiers before k; every other tier is unchanged |
| ReadPath.BackfillSelectsMissed | lib/active_support/cache/level2.rb:101-102 | `only:` set to the missed names selects exactly the tiers that missed |
| ReadPath.ReadThroughBackfillEvents | lib/active_support/cache/level2.rb:84-103 | events are read/miss per missed tier, read and hit or expired_hit, then one write per missed tier in probe order |
| ReadPath.ReadThroughFirstTierHit | lib/active_support/cache/level2.rb:101 | a hit in the first selected tier writes nothing |
| ReadPath.ReadThroughTouchesOnlySelected | lib/active_support/cache/level2.rb:50-53 | a read changes only selected tiers, and only by storing the returned entry under the key |
| Counter.ModifyMissingKey | lib/active_support/cache/level2.rb:140 | a counter that no selected tier holds gives nil and creates nothing |
| Counter.ModifyWritesSum | lib/active_support/cache/level2.rb:140-143 | a found counter gives old payload plus amount, and every selected tier then holds that sum as an unexpired entry; unselected tiers are unchanged |
| Counter.ModifyThenRead | lib/active_support/cache/level2.rb:137-146 | after a successful modify the next read returns the returned value |
| Counter.HeldCounterModify | lib/active_support/cache/level2.rb:137-146 | from a counter held by every selected tier, a modify returns held value plus amount and leaves that sum held |
| Counter.DecrementUndoesIncrement | lib/active_support/cache/level2.rb:40-46 | decrementing by the amount just incremented returns the value read before the increment |
| Counter.ReadAfterUniformWrite | lib/active_support/cache/level2.rb:84-97 | when every selected tier holds the same entry, a read returns it |
| Config.StoreNameOf | lib/active_support/cache/level2.rb:17 | the store name is the `:name` option, or empty when absent |
| Config.ProvidedNamespaceOf | lib/active_support/cache/level2.rb:21 | the provided namespace is the `:namespace` option, or none |
| Config.EffectiveNamespace | lib/active_support/cache/level2.rb:22-25 | the namespace is the store name, a colon, then the proc's result when a proc was given and nothing otherwise |
| Config.NamespacesSeparate | lib/active_support/cache/level2.rb:24 | store names without a colon give equal namespaces only for equal names and equal proc results |
| Config.PlainNamespaceDropped | lib/active_support/cache/level2.rb:23 | a non-proc namespace is ignored |
| Config.TierKeysAsWritten | lib/active_support/cache/level2.rb:17-20 | as written, every option key except `:name` becomes a tier |
| Config.NamespaceBecomesTierAsWritten | lib/active_support/cache/level2.rb:18-21 | as written, a `:namespace` option becomes a tier named `namespace` |
| Config.TierKeys | lib/active_support/cache/level2.rb:18-20 | the tiers are the option keys other than `:name` and `:namespace` |
| Config.ConfiguredTiers | lib/active_support/cache/level2.rb:18-20 | one tier per store option, named by its key, in option order |
| Config.ConfiguredTiersHoldOptions | lib/active_support/cache/level2.rb:18-20 | each tier starts with the entries of the backend built from the option of its own name |
| Config.ConfiguredTiersDistinct | lib/active_support/cache/level2.rb:18-20 | tier names are distinct |
| Level2Cache.EachSelectedTier | lib/active_support/cache/level2.rb:64-77 | the per-tier loop yields exactly `FanOutTiers`, the selected names in order, and the events of the selection |
| Level2Cache.ProbeTiers | lib/active_support/cache/level2.rb:82-97 | the probe loop yields exactly the entry, misses and events of `Probe` |
| Level2Cache.ReadFromTiers | lib/active_support/cache/level2.rb:79-106 | the probe loop followed by the backfill fan-out yields exactly the entry, tiers and events of `ReadFrom`, with the tier names unchanged |
| Level2Cache.Level2.constructor | lib/active_support/cache/level2.rb:16-25 | store name, provided namespace and tiers as configured; tier names distinct; empty log |
| Level2Cache.Level2.Namespace | lib/active_support/cache/level2.rb:22-25 | the namespace starts with the store name and a colon; after them comes the proc's result when a proc was provided, and nothing otherwise |
| Level2Cache.Level2.EachSelected | lib/active_support/cache/level2.rb:73-77 | the tiers become `FanOutTiers` of the old tiers, the selected names come back, and the log grows by the fan-out's events |
| Level2Cache.Level2.WriteEntry | lib/active_support/cache/level2.rb:55-61 | the tiers become the write fan-out; the results are the selected tiers' own `write` answers in selection order, with one write event each |
| Level2Cache.Level2.DeleteEntry | lib/active_support/cache/level2.rb:63-69 | the tiers become the delete fan-out; returns the selection, with one delete event each |
| Level2Cache.Level2.Clear | lib/active_support/cache/level2.rb:36-38 | every tier is emptied; nothing is reported |
| Level2Cache.Level2.Cleanup | lib/active_support/cache/level2.rb:32-34 | every tier drops its expired entries; nothing is reported |
| Level2Cache.Level2.ReadEntryFrom | lib/active_support/cache/level2.rb:79-106 | given a selection drawn from the live tiers, the result, new tiers and new events are those of `ReadFrom` on the old tiers |
| Level2Cache.Level2.ReadEntry | lib/active_support/cache/level2.rb:50-53 | the result, new tiers and new events are those of `ReadThrough` on the old tiers |
| Level2Cache.Level2.ModifyValue | lib/active_support/cache/level2.rb:137-146 | the result, new tiers and new events are those of `Modify` on the old tiers |
| Level2Cache.Level2.Increment | lib/active_support/cache/level2.rb:40-42 | `Modify` with the amount, 1 by default |
| Level2Cache.Level2.Decrement | lib/active_support/cache/level2.rb:44-46 | `Modify` with the negated amount, 1 by default |

## Left out

- Per-tier threads in `in_each_store` (line 75): the model applies the write to one tier after another, and the results are collected in selection order as `map(&:value)` does. The threads fix no order among the `write` notifications, so the order of write events stated by `FanOut.WriteEventsFollowSelection`, `ReadPath.ReadThroughBackfillEvents` and `Level2Cache.Level2.WriteEntry` is that of the sequential model, not a promise of the code.
- The `Monitor` and `synchronize`: `modify_value` is modelled as one atomic step. The no-lost-update guarantee under concurrency is not stated.
- `ActiveSupport::Notifications.instrument` is a foreign call. Each notification becomes an `(event, tier name)` pair appended to the ghost `log`. The payload (`store_name`, `cache`) and the subscribers are not modelled.
- `ActiveSupport::Cache.lookup_store` and the backends are not part of this model. A store option is given directly as the entries its backend holds.
- Shared backends: each tier owns its entries, so tiers are assumed to have distinct backends. Two option names given the same store object (which `lookup_store` passes through unchanged) are not modelled. With such aliasing, a write, delete or backfill reaching one of the names also changes what the other holds. "Unselected tiers are unchanged" in `FanOut.WriteReachesExactlySelected`, `ReadPath.ReadThroughBackfill` and `Counter.ModifyWritesSum` holds only for distinct backends.
- The `Store` superclass is not part of this model: public `read`/`write`, key normalisation, `merged_options`, the version check and `require`s. `modify_value` is modelled directly over `read_entry` and `write_entry`.
- The expiry handling inside `Store#read` is not modelled. A counter whose entry has expired is still read and incremented here.
- Ruby's `to_i` conversion is not modelled: payloads are integers.
- Level2Cache.Level2.WriteEntry: each backend's `write` answer is an input (`accepts`, by tier name), and the entry is stored in every selected tier whatever that answer is; a backend that reports failure and stores nothing is not modelled. `ModifyValue` discards the answers, as `modify_value` does.
- Backend faults: a backend without `cleanup` raises, `Thread#value` (line 76) re-raises an exception from a tier's `write`, and a backend `read` can raise mid-probe. Each aborts the operation after the tiers before it were already changed or reported. The model has no error path: every backend call succeeds.
- Arguments passed through `clear(*args)` and `cleanup(*args)` are not modelled. `cleanup` is modelled as the documented `Store#cleanup` effect, which removes expired entries.
- Per-call options other than `only:` (such as expiry or a namespace override) are not modelled.
- Level2Cache.Level2.constructor: requires the options to be well formed: distinct keys, `:name` mapped to a name, `:namespace` mapped to a namespace value. It uses the corrected tier list (see Findings), so a `:namespace` option does not become a tier here.
- No-lost-updates over an arbitrary number of serial increments is stated one step at a time (`Counter.HeldCounterModify`), not as a closed formula over n increments.

## Findings

| source | as written | input that shows it | evidently intended | confidence | as-written member | corrected member |
|---|---|---|---|---|---|---|
| lib/active_support/cache/level2.rb:17-21 | after deleting `:name`, every remaining option becomes a tier, and `:namespace` is read after that | options `{name: 'x', namespace: proc, memory: [...]}` give a second tier named `namespace`, whose backend is whatever `lookup_store` makes of the namespace value | only store options become tiers; `:name` and `:namespace` configure the store | medium; not executed | Config.NamespaceBecomesTierAsWritten | Config.TierKeys |
