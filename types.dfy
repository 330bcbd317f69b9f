/** Value types shared by the dataset generator and the lookup (hashes.cpp, namespace hash_bench). */
module Types {

  /** The source's uint64_t: an integer of 64 unsigned bits. */
  newtype u64 = x: int | 0 <= x < 0x1_0000_0000_0000_0000

  type Key = u64
  type Value = u64

  /** One record of the key/value buffer, stored as the pair (key, value). */
  datatype KeyValue = KeyValue(key: Key, value: Value)

  /** Keys strictly increase along the buffer, so no key occurs twice. */
  predicate StrictlyAscending(s: seq<KeyValue>)
  {
    forall i, j :: 0 <= i < j < |s| ==> s[i].key < s[j].key
  }
}
