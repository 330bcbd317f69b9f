# BBHashBenchmark lookup core, modelled in Dafny

The benchmark in `hashes.cpp` (namespace `hash_bench`) measures how fast keys can
be looked up in a static key/value table. This project models its sequential
core:

- **`BenchSet`**, the dataset object. `gen(n)` draws `n` distinct 64-bit keys
  from `[0x10000000, 0x80000000]`, redrawing any key already taken. The i-th
  accepted key gets the value `i`. The records are stored in ascending key order
  in `m_data`, and their keys in `m_keys`. `make_task(r)` builds the query
  workload: `r` shuffled copies of the key list, one after another. `size()` and
  `data()` expose the record buffer.
- **`get_val_binsearch`**, binary search over that buffer. It keeps an inclusive
  bracket `[left, right]` and narrows it until the two ends are adjacent. One
  comparison then picks between the last two candidates.

Files:

- `types.dfy` (module `Types`): `u64`, `Key`, `Value`, the `KeyValue` record and
  `StrictlyAscending`.
- `random.dfy` (module `Random`): the pseudo-random engine (`std::mt19937` with
  `uniform_int_distribution` and `std::shuffle`) as an oracle.
- `dataset.dfy` (module `Dataset`): class `BenchSet` with `Gen`, `MakeTask`,
  `Size` and `Data`, plus the lemmas about generated datasets and tasks.
- `binsearch.dfy` (module `Binsearch`): `GetValBinsearch` and an independent
  reference definition of its result (`InsertionPoint`, `SettledIndex`).

How things are modelled:

- `BenchSet` is a class. `keys` and `data` are `seq` fields that `Gen` reassigns.
  A ghost field `drawOrder` records the keys in the order `Gen` accepted them.
  `Valid()` is the object invariant:
  - `keys[i] == data[i].key` for every `i`;
  - `data` is strictly ascending by key;
  - every key lies in the key range;
  - value `v` belongs to the `v`-th accepted key (`GeneratedBy`).
- The `std::map` of `gen` is a Dafny `map`. Walking it in key order is
  `AscendingEntries`, which repeatedly takes the least key not yet stored.
- The random engine is an oracle. A draw is any value in its range. A ghost
  field `draws` records every value the engine has returned, oldest first.
- The draw loop of `gen` is the method `DrawKeys`. It returns the map and, as a
  ghost, the keys in the order they were accepted. That order is
  `FirstOccurrences` of this call's draws: each drawn key in the order of its
  first draw, with the redrawn duplicates dropped.
- `std::shuffle` is modelled as a Fisher–Yates pass. Each swap partner is any
  index at or below the current position, so the result is some permutation of
  the input.
- The redraw loop of `gen` terminates only if the engine is fair. The model gives
  the engine a collision budget. A draw may return a key the caller has already
  taken only while the budget is positive, and each such draw spends one unit.
- The search's result is specified by `SettledIndex`. This function is defined
  from the insertion point of the key, not by bisection. The method is proved to
  return `data[SettledIndex(...)].value`.
  - For a stored key, this is the key's own record, including the first and the
    last record.
  - For a key that is not stored, it is the lower record of the final adjacent
    pair: index 0 below all keys, `n - 2` above all keys, and otherwise the
    record just below the key.

Edge cases of the search, as the code behaves:

- The search is written for at least two records: it stops on an adjacent pair
  (hashes.cpp:70, :83). With a single record it still returns when that record
  holds the key, because the first probe finds it (hashes.cpp:74-75). The model's
  precondition (`Searchable`) allows that case.
- With one entry and any other key, the loop never ends.
- With zero entries, `num_entries - 1` wraps around and the first probe reads out
  of bounds.
- A key above every stored key yields the value of the second-to-last record,
  not the last. This is how the code behaves, and the model follows it.

## Model

| member | source | states |
|---|---|---|
| `Binsearch.GetValBinsearch` | hashes.cpp:67-84 | With a strictly ascending buffer of at least two records, or one record holding the key: a stored key at any index `k`, the first and last included, yields `data[k].value`. Every key yields the value of the record `SettledIndex` names. The loop keeps `0 <= left <= right < n` and keeps a stored key's index inside the bracket. It ends because `right - left` shrinks. It changes nothing (no `modifies`). |
| `Binsearch.InsertionPoint` | hashes.cpp:69-81 | Reference for the bracket: the index `j <= n` such that every record before `j` has a smaller key and every record from `j` on has a key at least as large. |
| `Binsearch.SettledIndex` | hashes.cpp:83 | The record whose value the search returns is always inside the buffer (`i < n`), for stored and absent keys alike. |
| `Binsearch.SettledIndexOfPresentKey` | hashes.cpp:74-76 | For a strictly ascending buffer and `s[k].key == key`, the search's precondition holds and the settled index is `k`. |
| `Binsearch.SettledIndexOfAbsentKey` | hashes.cpp:77-83 | For a key that is not stored, the settled index `i` is the lower end of an adjacent pair. The key is above `s[i]` unless `i` is 0, and below `s[i + 1]` unless `i + 1` is the last index. The result is a stored value, not a "not found" marker. |
| `Binsearch.SettledIndexOfFinalPair` | hashes.cpp:83 | Once the bracket is an adjacent pair with those bounds, the settled index is the upper end when it holds the key, and the lower end otherwise. |
| `Random.Engine.constructor` | hashes.cpp:22 | This contract is deliberately minimal. A new engine has made no draws (`draws == []`). The seed given to the `std::mt19937` member (hashes.cpp:64) has no modelled effect on the stream, and the collision budget starts at an arbitrary value. |
| `Random.Engine.UniformInt` | hashes.cpp:30-35 | A draw lies in `[lo, hi]` and is appended to the engine's record of draws. A draw that repeats a value the caller has already taken spends the engine's collision budget, which never grows. |
| `Random.Engine.Shuffle` | hashes.cpp:54 | The shuffled buffer is a permutation of the buffer before the call (its multiset is unchanged). |
| `Random.FreshValueExists` | hashes.cpp:33-35 | When fewer values are taken than `[lo, hi]` holds, some value of the range is still free, so a fair redraw can succeed. |
| `Dataset.BenchSet.constructor` | hashes.cpp:22 | A new set holds no keys and no records, satisfies the object invariant, and owns a fresh engine. |
| `Dataset.BenchSet.Data` | hashes.cpp:24 | The buffer handed to the search is strictly ascending by key, and its keys are `keys`, index by index. |
| `Dataset.BenchSet.Size` | hashes.cpp:45 | The number of records equals the number of keys. |
| `Dataset.BenchSet.Gen` | hashes.cpp:26-43 | Afterwards `Size() == numEntries`. The records are strictly ascending by key, `keys[i] == data[i].key`, and every key lies in `[0x10000000, 0x80000000]`. The record of the `j`-th accepted key carries value `j`. The accepted keys are the distinct keys among the values the engine returned during this call, in the order of their first draw (`drawOrder == FirstOccurrences(new draws)`). The stored keys are exactly these keys, so nothing survives from an earlier call. |
| `Dataset.BenchSet.DrawKeys` | hashes.cpp:29-37 | The loop accepts exactly `numEntries` keys, all in the key range. The map holds exactly the accepted keys, and the `j`-th accepted key maps to `j`. The accepted order is `FirstOccurrences` of the engine's draws during the call: a drawn key already in the map is redrawn and never stored twice. |
| `Dataset.FirstOccurrencesStep` | hashes.cpp:33-36 | One more draw adds the drawn key to the accepted order when it is new, and leaves the order unchanged when the key was already accepted. |
| `Dataset.FirstOccurrencesAreDistinct` | hashes.cpp:33-36 | The accepted order holds exactly the drawn keys, with no key twice. |
| `Dataset.EntriesOfAcceptedKeys` | hashes.cpp:36-41 | Records built in key order from a map that sends the `j`-th accepted key to `j` form a generated dataset (`GeneratedBy`). Their key list holds exactly the accepted keys. |
| `Dataset.AscendingEntries` | hashes.cpp:38-41 | Iterating the map yields one record per map entry, each pairing a key with its mapped value. The records are strictly ascending by key, and the key list mirrors them. |
| `Dataset.ValuesAreOneToN` | hashes.cpp:31-36 | In a generated dataset, a value `v` is stored if and only if `1 <= v <= N`, and no two records share a value. |
| `Dataset.GeneratedValueIsStored` | hashes.cpp:31-36 | In a generated dataset, every `v` in `1..N` is the value of some record. |
| `Dataset.GeneratedValuesDiffer` | hashes.cpp:36 | In a generated dataset, two different records carry different values. |
| `Dataset.DrawOrderIsDistinct` | hashes.cpp:33-36 | The keys accepted by `gen` are pairwise distinct. |
| `Dataset.BenchSet.MakeTask` | hashes.cpp:49-59 | The task has length `nIters * size()`. It consists of `nIters` consecutive blocks, each a permutation of `keys`. Its multiset is `nIters` copies of the keys, so each key occurs exactly `nIters` times and nothing else occurs. `keys` and `data` are unchanged (no `modifies`). |
| `Dataset.AppendBlock` | hashes.cpp:55-56 | Appending one permutation of the keys to `i` complete blocks gives `i + 1` complete blocks. |
| `Dataset.EachKeyRepeated` | hashes.cpp:53-57 | A task that is `r` copies of a strictly ascending key list contains each key exactly `r` times and no other key. |

## Left out

- `main` (hashes.cpp:90-117) is not modelled. It covers argument parsing with `strtoull`, the usage text and exit codes, `std::chrono` timing, and the floating-point mean. It is also where the unguarded division by `results.size()` for zero runs happens.
- The internals of `std::mt19937`, `uniform_int_distribution` and `std::shuffle` are not modelled. Draws are nondeterministic choices within their range, and the seed has no modelled effect. So the model does not capture reproducibility from `RND_SEED` or the uniformity of the distributions.
- Random.Engine.UniformInt: its fairness is an assumption about the engine, not a property of `std::mt19937`. The collision budget stands for "the redraw loop eventually finds a fresh key".
- Random.Engine.Shuffle: libstdc++'s `std::shuffle` may draw two indices from one number. The model draws one index per swap. Only "the result is a permutation" is claimed.
- The `reinterpret_cast` two-word read in `get_val_binsearch` (hashes.cpp:72-75) is modelled as plain field access `data[mid].key` / `data[mid].value`. This behaves the same for the (key, value) pair layout.
- `size_t` arithmetic in the search is modelled with unbounded naturals. `(left + right) / 2` cannot overflow for any buffer that fits in memory.
- `GetValBinsearch` does not model the cases where the code fails: a single record with another key (the loop never ends) and zero records (out-of-bounds read). Its precondition excludes them.
- `Gen` requires `numEntries <= 0x70000001`, the size of the key range. With more entries the redraw loop can never find a fresh key and the code does not terminate.
- `keys()` (hashes.cpp:47) is declared in the code but never defined, so there is nothing to model.
- The perfect-hash lookup table and its external minimal-perfect-hash library are not part of `hashes.cpp` and are not part of this model.
