/**
 * get_val_binsearch (hashes.cpp:67-84): binary search over a buffer of
 * (key, value) records sorted by key. The inclusive bracket [left, right] is
 * narrowed until its ends are adjacent, and the last two candidates are
 * settled by one comparison.
 */
module Binsearch {
  import opened Types

  /**
   * The number of records whose key lies below `key`: in an ascending buffer,
   * the index at which `key` is stored or would be inserted.
   */
  function InsertionPoint(s: seq<KeyValue>, key: Key): (j: nat)
    requires StrictlyAscending(s)
    ensures j <= |s|
    ensures forall i :: 0 <= i < j ==> s[i].key < key
    ensures forall i :: j <= i < |s| ==> key <= s[i].key
  {
    if |s| == 0 || key <= s[0].key then 0 else 1 + InsertionPoint(s[1..], key)
  }

  /**
   * What the search demands of its caller: an ascending buffer with at least
   * two records, or with a single record that holds the key (with one record
   * and any other key the loop never ends; with none it reads out of bounds).
   */
  predicate Searchable(s: seq<KeyValue>, key: Key)
  {
    StrictlyAscending(s) && (|s| >= 2 || (|s| == 1 && s[0].key == key))
  }

  /**
   * Reference definition of the record whose value the search returns: the
   * record holding `key` when there is one; otherwise the record just below the
   * insertion point, clamped to the first record and to the second-to-last one.
   */
  function SettledIndex(s: seq<KeyValue>, key: Key): (i: nat)
    requires Searchable(s, key)
    ensures i < |s|
  {
    var j := InsertionPoint(s, key);
    if j < |s| && s[j].key == key then j
    else if j == 0 then 0
    else if j == |s| then |s| - 2
    else j - 1
  }

  /** A key that is stored is found at its own index, first and last included. */
  lemma SettledIndexOfPresentKey(s: seq<KeyValue>, key: Key, k: nat)
    requires StrictlyAscending(s)
    requires k < |s| && s[k].key == key
    ensures Searchable(s, key)
    ensures SettledIndex(s, key) == k
  {
  }

  /**
   * A key that is not stored still settles on a stored record: the lower end of
   * an adjacent pair, with the key above the lower record unless that is the
   * first one, and below the upper record unless that is the last one.
   */
  lemma SettledIndexOfAbsentKey(s: seq<KeyValue>, key: Key)
    requires Searchable(s, key)
    requires forall i :: 0 <= i < |s| ==> s[i].key != key
    ensures var i := SettledIndex(s, key);
      i + 1 < |s| &&
      (i == 0 || s[i].key < key) &&
      (i + 1 == |s| - 1 || key < s[i + 1].key)
  {
  }

  /**
   * Once the bracket is an adjacent pair [left, left + 1] with the key above the
   * lower record (unless it is the first) and below the upper one (unless it is
   * the last), SettledIndex is the upper index when it holds the key and the
   * lower one otherwise: the comparison the search ends with.
   */
  lemma SettledIndexOfFinalPair(s: seq<KeyValue>, key: Key, left: nat)
    requires Searchable(s, key)
    requires left + 1 < |s|
    requires left == 0 || s[left].key < key
    requires left + 1 == |s| - 1 || key < s[left + 1].key
    ensures SettledIndex(s, key) == if s[left + 1].key == key then left + 1 else left
  {
  }

  /**
   * The search. It reads `data` and changes nothing. The result is the value of
   * the record SettledIndex names; in particular a stored key yields its own value.
   */
  method GetValBinsearch(key: Key, data: seq<KeyValue>, numEntries: nat) returns (r: Value)
    requires numEntries <= |data|
    requires Searchable(data[..numEntries], key)
    ensures r == data[SettledIndex(data[..numEntries], key)].value
    ensures forall k :: 0 <= k < numEntries && data[k].key == key ==> r == data[k].value
  {
    ghost var s := data[..numEntries];
    var left, right := 0, numEntries - 1;
    while left + 1 != right
      invariant 0 <= left <= right < numEntries
      invariant left < right || data[left].key == key
      invariant left == 0 || data[left].key < key
      invariant right == numEntries - 1 || key < data[right].key
      decreases right - left
    {
      var mid := (left + right) / 2;
      var midKey := data[mid].key;
      if key == midKey {
        SettledIndexOfPresentKey(s, key, mid);
        return data[mid].value;
      }
      if key < midKey {
        right := mid;
      } else {
        left := mid;
      }
    }
    SettledIndexOfFinalPair(s, key, left);
    r := if data[right].key == key then data[right].value else data[left].value;
  }
}
