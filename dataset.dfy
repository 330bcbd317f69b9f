/**
 * class BenchSet (hashes.cpp:20-65): the benchmark's dataset of unique keys,
 * each paired with the order in which it was drawn, and the query workload
 * built from shuffled copies of the key list.
 */
module Dataset {
  import opened Types
  import Random

  /** Keys are drawn uniformly from [KeyMin, KeyMax]. */
  const KeyMin: Key := 0x1000_0000
  const KeyMax: Key := 0x8000_0000
  /** How many distinct keys the range holds: the most `Gen` can produce. */
  const KeyRangeSize: nat := (KeyMax - KeyMin) as nat + 1

  predicate InKeyRange(k: Key)
  {
    KeyMin <= k <= KeyMax
  }

  /**
   * The record of `kv`'s key carries as value the 1-based position of that key in
   * the draw order `order`.
   */
  ghost predicate ValueNamesKey(kv: KeyValue, order: seq<Key>)
  {
    1 <= kv.value as int <= |order| && order[kv.value - 1] == kv.key
  }

  /** Some record of `data` pairs the j-th accepted key with the value j + 1. */
  ghost predicate HasRecordFor(data: seq<KeyValue>, order: seq<Key>, j: nat)
    requires j < |order|
  {
    exists i :: 0 <= i < |data| && data[i].key == order[j] && data[i].value as int == j + 1
  }

  /**
   * `data` was generated from the draw order `order` (the keys in the order they
   * were accepted): it has one record per accepted key, and the record of the
   * j-th accepted key (counting from 1) carries the value j.
   */
  ghost predicate GeneratedBy(data: seq<KeyValue>, order: seq<Key>)
  {
    |order| == |data| &&
    (forall i :: 0 <= i < |data| ==> ValueNamesKey(data[i], order)) &&
    (forall j {:trigger HasRecordFor(data, order, j)} :: 0 <= j < |order| ==> HasRecordFor(data, order, j))
  }

  /**
   * The keys accepted from a run of draws: each drawn value at its first
   * appearance, later repeats (the redrawn keys) dropped.
   */
  function FirstOccurrences(ds: seq<Key>): seq<Key>
  {
    if ds == [] then []
    else
      var accepted := FirstOccurrences(ds[..|ds| - 1]);
      if ds[|ds| - 1] in accepted then accepted else accepted + [ds[|ds| - 1]]
  }

  /** One more draw is accepted exactly when it has not been accepted before. */
  lemma FirstOccurrencesStep(ds: seq<Key>, x: Key)
    ensures FirstOccurrences(ds + [x]) ==
      if x in FirstOccurrences(ds) then FirstOccurrences(ds) else FirstOccurrences(ds) + [x]
  {
    assert (ds + [x])[..|ds|] == ds;
  }

  /**
   * The accepted keys are exactly the drawn values, each once, in the order of
   * their first draw.
   */
  lemma {:induction false} FirstOccurrencesAreDistinct(ds: seq<Key>)
    ensures forall x :: x in FirstOccurrences(ds) <==> x in ds
    ensures forall j, k :: 0 <= j < k < |FirstOccurrences(ds)| ==>
      FirstOccurrences(ds)[j] != FirstOccurrences(ds)[k]
  {
    if ds != [] {
      var init := ds[..|ds| - 1];
      FirstOccurrencesAreDistinct(init);
      assert ds == init + [ds[|ds| - 1]];
    }
  }

  /** The values of the records, in buffer order. */
  function Values(data: seq<KeyValue>): (vs: seq<Value>)
    ensures |vs| == |data| && forall i :: 0 <= i < |data| ==> vs[i] == data[i].value
  {
    if data == [] then [] else [data[0].value] + Values(data[1..])
  }

  /** The accepted keys are pairwise distinct. */
  lemma DrawOrderIsDistinct(data: seq<KeyValue>, order: seq<Key>)
    requires StrictlyAscending(data)
    requires GeneratedBy(data, order)
    ensures forall j, k :: 0 <= j < k < |order| ==> order[j] != order[k]
  {
    forall j, k | 0 <= j < k < |order|
      ensures order[j] != order[k]
    {
      assert HasRecordFor(data, order, j) && HasRecordFor(data, order, k);
      var i :| 0 <= i < |data| && data[i].key == order[j] && data[i].value as int == j + 1;
      var i' :| 0 <= i' < |data| && data[i'].key == order[k] && data[i'].value as int == k + 1;
      if i < i' {
        assert data[i].key < data[i'].key;
      } else {
        assert i' < i;
        assert data[i'].key < data[i].key;
      }
    }
  }

  /** In a generated dataset, value v of 1, ..., N is stored. */
  lemma GeneratedValueIsStored(data: seq<KeyValue>, order: seq<Key>, v: Value)
    requires GeneratedBy(data, order)
    requires 1 <= v as int <= |data|
    ensures v in Values(data)
  {
    assert HasRecordFor(data, order, v as int - 1);
    var i :| 0 <= i < |data| && data[i].key == order[v - 1] && data[i].value as int == v as int;
    assert Values(data)[i] == v;
  }

  /** In a generated dataset, two records never share a value. */
  lemma GeneratedValuesDiffer(data: seq<KeyValue>, order: seq<Key>, i: nat, j: nat)
    requires StrictlyAscending(data)
    requires GeneratedBy(data, order)
    requires i < j < |data|
    ensures data[i].value != data[j].value
  {
    assert data[i].key < data[j].key;
    assert ValueNamesKey(data[i], order) && ValueNamesKey(data[j], order);
  }

  /**
   * The values of a generated dataset are exactly 1, ..., N, each occurring
   * once: value v is stored if and only if 1 <= v <= N, and no two records
   * share a value.
   */
  lemma ValuesAreOneToN(data: seq<KeyValue>, order: seq<Key>)
    requires StrictlyAscending(data)
    requires GeneratedBy(data, order)
    ensures forall v: Value :: v in Values(data) <==> 1 <= v as int <= |data|
    ensures forall i, j :: 0 <= i < j < |data| ==> Values(data)[i] != Values(data)[j]
  {
    forall v: Value | 1 <= v as int <= |data|
      ensures v in Values(data)
    {
      GeneratedValueIsStored(data, order, v);
    }
    forall v: Value | v in Values(data)
      ensures 1 <= v as int <= |data|
    {
      var i :| 0 <= i < |data| && Values(data)[i] == v;
      assert ValueNamesKey(data[i], order);
    }
    forall i, j | 0 <= i < j < |data|
      ensures Values(data)[i] != Values(data)[j]
    {
      GeneratedValuesDiffer(data, order, i, j);
    }
  }

  /** `r` copies of the multiset `m`. */
  function Copies(m: multiset<Key>, r: nat): multiset<Key>
  {
    if r == 0 then multiset{} else Copies(m, r - 1) + m
  }

  /** Each element occurs r times as often in r copies. */
  lemma {:induction false} CopiesCount(m: multiset<Key>, r: nat, x: Key)
    ensures Copies(m, r)[x] == r * m[x]
  {
    if r > 0 {
      CopiesCount(m, r - 1, x);
      assert Copies(m, r)[x] == (r - 1) * m[x] + m[x];
    }
  }

  /** A key of a strictly ascending key list occurs in it exactly once. */
  lemma {:induction false} AscendingKeysOccurOnce(keys: seq<Key>, x: Key)
    requires forall i, j :: 0 <= i < j < |keys| ==> keys[i] < keys[j]
    requires x in keys
    ensures multiset(keys)[x] == 1
  {
    assert keys == [keys[0]] + keys[1..];
    if x == keys[0] {
      assert x !in keys[1..];
    } else {
      AscendingKeysOccurOnce(keys[1..], x);
    }
  }

  /** Appending one more block of n moves the end of the blocks from i * n to (i + 1) * n. */
  lemma NextBlockEnd(i: nat, n: nat)
    ensures (i + 1) * n == i * n + n
  {
  }

  /** Block b ends no later than where block i starts, when b < i. */
  lemma EarlierBlockEnd(b: nat, i: nat, n: nat)
    requires b < i
    ensures b * n + n <= i * n
  {
    NextBlockEnd(b, n);
    assert (b + 1) * n <= i * n;
  }

  /** The b-th block of n consecutive elements of s. */
  function Block(s: seq<Key>, n: nat, b: nat): seq<Key>
    requires b * n + n <= |s|
  {
    s[b * n .. b * n + n]
  }

  /**
   * Appending a permutation of `keys` to i complete blocks of permutations of
   * `keys` gives i + 1 such blocks.
   */
  lemma AppendBlock(task: seq<Key>, block: seq<Key>, keys: seq<Key>, i: nat)
    requires |task| == i * |keys|
    requires forall b :: 0 <= b < i ==>
      b * |keys| + |keys| <= |task| && multiset(Block(task, |keys|, b)) == multiset(keys)
    requires multiset(block) == multiset(keys)
    ensures |task + block| == (i + 1) * |keys|
    ensures forall b :: 0 <= b < i + 1 ==>
      b * |keys| + |keys| <= |task + block| && multiset(Block(task + block, |keys|, b)) == multiset(keys)
  {
    var n := |keys|;
    assert |block| == n by {
      assert |multiset(block)| == |block| && |multiset(keys)| == n;
    }
    NextBlockEnd(i, n);
    forall b | 0 <= b < i + 1
      ensures b * n + n <= |task + block| && multiset(Block(task + block, n, b)) == multiset(keys)
    {
      if b < i {
        EarlierBlockEnd(b, i, n);
        assert Block(task + block, n, b) == Block(task, n, b);
      } else {
        assert Block(task + block, n, b) == block;
      }
    }
  }

  /**
   * When a task holds r copies of a strictly ascending key list, each key occurs
   * in it exactly r times and nothing else occurs in it.
   */
  lemma EachKeyRepeated(keys: seq<Key>, r: nat, task: seq<Key>)
    requires forall i, j :: 0 <= i < j < |keys| ==> keys[i] < keys[j]
    requires multiset(task) == Copies(multiset(keys), r)
    ensures forall x :: x in keys ==> multiset(task)[x] == r
    ensures forall x :: x in task ==> x in keys
  {
    forall x | x in keys
      ensures multiset(task)[x] == r
    {
      CopiesCount(multiset(keys), r, x);
      AscendingKeysOccurOnce(keys, x);
    }
    forall x | x in task
      ensures x in keys
    {
      CopiesCount(multiset(keys), r, x);
    }
  }

  /**
   * The records of a map that gives the j-th accepted key the value j (from 1)
   * are generated by the accepted order, and their keys are the accepted keys.
   */
  lemma EntriesOfAcceptedKeys(m: map<Key, Value>, order: seq<Key>, keys: seq<Key>, data: seq<KeyValue>)
    requires |order| == |m.Keys| && forall x :: x in m <==> x in order
    requires forall j :: 0 <= j < |order| ==> m[order[j]] as int == j + 1
    requires |keys| == |data| == |m.Keys|
    requires forall j :: 0 <= j < |data| ==> keys[j] == data[j].key
    requires forall j :: 0 <= j < |data| ==> data[j].key in m && m[data[j].key] == data[j].value
    requires forall x :: x in m ==> x in keys
    ensures GeneratedBy(data, order)
    ensures forall x :: x in keys <==> x in order
  {
    forall j | 0 <= j < |order|
      ensures HasRecordFor(data, order, j)
    {
      assert order[j] in m;
      var i :| 0 <= i < |keys| && keys[i] == order[j];
      assert data[i].key == order[j] && data[i].value as int == j + 1;
    }
    forall i | 0 <= i < |data|
      ensures ValueNamesKey(data[i], order)
    {
      var j :| 0 <= j < |order| && order[j] == data[i].key;
    }
    forall x | x in keys
      ensures x in order
    {
      var i :| 0 <= i < |keys| && keys[i] == x;
    }
  }

  class BenchSet {
    /** The engine (m_rand_gen) shared by Gen and MakeTask. */
    const engine: Random.Engine
    /** m_keys: the keys of `data`, in the same order. */
    var keys: seq<Key>
    /** m_data: the key/value records, ascending by key. */
    var data: seq<KeyValue>
    /** The keys in the order the last Gen accepted them. */
    ghost var drawOrder: seq<Key>

    /** The invariant every BenchSet keeps between calls. */
    ghost predicate Valid()
      reads this
    {
      |keys| == |data| &&
      (forall i :: 0 <= i < |data| ==> keys[i] == data[i].key) &&
      StrictlyAscending(data) &&
      (forall i :: 0 <= i < |data| ==> InKeyRange(data[i].key)) &&
      GeneratedBy(data, drawOrder)
    }

    constructor (seed: int)
      ensures Valid()
      ensures keys == [] && data == []
      ensures fresh(engine)
    {
      engine := new Random.Engine(seed);
      keys, data := [], [];
      drawOrder := [];
    }

    /** data(): the record buffer handed to the search, ascending by key. */
    function Data(): (s: seq<KeyValue>)
      reads this
      requires Valid()
      ensures StrictlyAscending(s)
      ensures |s| == |keys| && forall i :: 0 <= i < |s| ==> s[i].key == keys[i]
    {
      data
    }

    /** size(): the number of records, which is also the number of keys. */
    function Size(): (n: nat)
      reads this
      requires Valid()
      ensures n == |keys|
    {
      |data|
    }

    /**
     * gen: clears both vectors, draws numEntries distinct keys (redrawing a key
     * already taken), gives the i-th accepted key the value i, and stores the
     * records in ascending key order by walking the ordered map.
     */
    method Gen(numEntries: nat)
      requires numEntries <= KeyRangeSize
      modifies this, engine
      ensures Valid()
      ensures Size() == numEntries && |drawOrder| == numEntries
      ensures StrictlyAscending(data)
      ensures forall i :: 0 <= i < |data| ==> keys[i] == data[i].key && InKeyRange(data[i].key)
      ensures GeneratedBy(data, drawOrder)
      ensures forall x :: x in keys <==> x in drawOrder
      ensures old(engine.draws) <= engine.draws
      ensures drawOrder == FirstOccurrences(engine.draws[|old(engine.draws)|..])
    {
      keys := [];
      data := [];
      var m: map<Key, Value>;
      ghost var order: seq<Key>;
      m, order := DrawKeys(numEntries);
      var ks, kvs := AscendingEntries(m);
      keys, data := ks, kvs;
      drawOrder := order;
      EntriesOfAcceptedKeys(m, order, keys, data);
    }

    /**
     * The drawing loop of gen: for i = 1..numEntries, draw a key, redraw while it
     * is already in the map, and map it to i. `order` lists the accepted keys.
     */
    method DrawKeys(numEntries: nat) returns (m: map<Key, Value>, ghost order: seq<Key>)
      requires numEntries <= KeyRangeSize
      modifies engine
      ensures |order| == numEntries == |m.Keys|
      ensures forall x :: x in m <==> x in order
      ensures forall j :: 0 <= j < |order| ==> m[order[j]] as int == j + 1
      ensures forall x :: x in m ==> InKeyRange(x)
      ensures old(engine.draws) <= engine.draws
      ensures order == FirstOccurrences(engine.draws[|old(engine.draws)|..])
    {
      m, order := map[], [];
      // The engine's draws made by this call, rejected ones included.
      ghost var drawn: seq<Key> := [];
      var i: nat := 1;
      while i <= numEntries
        invariant 1 <= i <= numEntries + 1
        invariant |order| == i - 1 == |m.Keys|
        invariant forall x :: x in m <==> x in order
        invariant forall j :: 0 <= j < |order| ==> m[order[j]] as int == j + 1
        invariant forall x :: x in m ==> InKeyRange(x)
        invariant engine.draws == old(engine.draws) + drawn
        invariant order == FirstOccurrences(drawn)
        modifies engine
      {
        var key := engine.UniformInt(KeyMin, KeyMax, m.Keys);
        FirstOccurrencesStep(drawn, key);
        drawn := drawn + [key];
        while key in m
          invariant InKeyRange(key)
          invariant engine.draws == old(engine.draws) + drawn
          invariant FirstOccurrences(drawn) == if key in m then order else order + [key]
          modifies engine
          decreases engine.collisionBudget + (if key in m then 1 else 0)
        {
          key := engine.UniformInt(KeyMin, KeyMax, m.Keys);
          FirstOccurrencesStep(drawn, key);
          drawn := drawn + [key];
        }
        m := m[key := i as Value];
        order := order + [key];
        i := i + 1;
      }

      assert engine.draws[|old(engine.draws)|..] == drawn;
    }

    /**
     * make_task: n_iters times, shuffles a copy of the keys in place and appends
     * it. The task is n_iters consecutive blocks, each a permutation of the keys,
     * so each key occurs exactly n_iters times; keys and data are untouched.
     */
    method MakeTask(nIters: nat) returns (task: seq<Key>)
      requires Valid()
      ensures |task| == nIters * |keys|
      ensures forall b :: 0 <= b < nIters ==>
        b * |keys| + |keys| <= |task| && multiset(Block(task, |keys|, b)) == multiset(keys)
      ensures multiset(task) == Copies(multiset(keys), nIters)
      ensures forall x :: x in keys ==> multiset(task)[x] == nIters
      ensures forall x :: x in task ==> x in keys
    {
      var ks := keys;
      var n := |ks|;
      task := [];
      var shuffleBuf := new Key[n](j requires 0 <= j < n => ks[j]);
      assert shuffleBuf[..] == ks;
      var i := 0;
      while i < nIters
        invariant 0 <= i <= nIters
        invariant |task| == i * n
        invariant multiset(shuffleBuf[..]) == multiset(ks)
        invariant forall b :: 0 <= b < i ==>
          b * n + n <= |task| && multiset(Block(task, n, b)) == multiset(ks)
        invariant multiset(task) == Copies(multiset(ks), i)
      {
        engine.Shuffle(shuffleBuf);
        var prev := task;
        task := task + shuffleBuf[..];
        AppendBlock(prev, shuffleBuf[..], ks, i);
        i := i + 1;
      }
      EachKeyRepeated(ks, nIters, task);
    }
  }

  /**
   * Iteration over a std::map: its entries in ascending key order, as the key
   * list and the record list.
   */
  method AscendingEntries(m: map<Key, Value>) returns (keys: seq<Key>, data: seq<KeyValue>)
    ensures |keys| == |data| == |m.Keys|
    ensures forall j :: 0 <= j < |data| ==> keys[j] == data[j].key
    ensures StrictlyAscending(data)
    ensures forall j :: 0 <= j < |data| ==> data[j].key in m && m[data[j].key] == data[j].value
    ensures forall x :: x in m ==> x in keys
  {
    keys, data := [], [];
    var pending := m.Keys;
    while pending != {}
      invariant pending <= m.Keys
      invariant |keys| == |data| && |data| + |pending| == |m.Keys|
      invariant forall j :: 0 <= j < |data| ==> keys[j] == data[j].key
      invariant forall j :: 0 <= j < |data| ==>
        data[j].key in m && data[j].key !in pending && m[data[j].key] == data[j].value
      invariant forall x :: x in m ==> x in pending || x in keys
      invariant StrictlyAscending(data)
      invariant |data| > 0 ==> forall x :: x in pending ==> data[|data| - 1].key < x
      decreases pending
    {
      MinimumExists(pending);
      var k :| IsLeast(k, pending);
      keys := keys + [k];
      data := data + [KeyValue(k, m[k])];
      pending := pending - {k};
    }
  }

  /** k is the least element of s. */
  predicate IsLeast(k: Key, s: set<Key>)
  {
    k in s && forall y :: y in s ==> k <= y
  }

  /** A nonempty finite set of keys has a least element. */
  lemma {:induction false} MinimumExists(s: set<Key>)
    requires s != {}
    ensures exists k :: IsLeast(k, s)
    decreases |s|
  {
    var x :| x in s;
    var rest := s - {x};
    if rest == {} {
      assert s == {x};
      assert IsLeast(x, s);
    } else {
      MinimumExists(rest);
      var k :| IsLeast(k, rest);
      var least := if x < k then x else k;
      forall y | y in s
        ensures least <= y
      {
        if y != x {
          assert y in rest;
        }
      }
      assert IsLeast(least, s);
    }
  }
}
