/** A list of entries with distinct keys, seen as a map with a bounded number of keys. */
module BoundedMap {

  ghost predicate Distinct<K, V>(entries: seq<(K, V)>) {
    forall i, j :: 0 <= i < j < |entries| ==> entries[i].0 != entries[j].0
  }

  /** Index of the entry with that key, or |entries|. */
  ghost function Find<K, V>(entries: seq<(K, V)>, key: K): (i: nat)
    ensures i <= |entries|
    ensures i < |entries| ==> entries[i].0 == key
    ensures forall j :: 0 <= j < i ==> entries[j].0 != key
  {
    if entries == [] || entries[0].0 == key then 0 else Find(entries[1..], key) + 1
  }

  ghost function PutEntry<K, V>(entries: seq<(K, V)>, key: K, value: V, bound: nat): seq<(K, V)> {
    var i := Find(entries, key);
    if i < |entries| then entries[i := (key, value)]
    else if |entries| < bound then entries + [(key, value)]
    else entries
  }

  ghost function AsMap<K, V>(entries: seq<(K, V)>): map<K, V> {
    if entries == [] then map[]
    else AsMap(entries[..|entries| - 1])[entries[|entries| - 1].0 := entries[|entries| - 1].1]
  }

  lemma {:induction false} KeyOf<K, V>(entries: seq<(K, V)>, key: K)
    ensures key in AsMap(entries) <==> Find(entries, key) < |entries|
  {
    if entries != [] {
      KeyOf(entries[..|entries| - 1], key);
      FindFront(entries, key);
    }
  }

  lemma {:induction false} ValueAt<K, V>(entries: seq<(K, V)>, i: nat)
    requires Distinct(entries) && i < |entries|
    ensures entries[i].0 in AsMap(entries) && AsMap(entries)[entries[i].0] == entries[i].1
  {
    if i < |entries| - 1 { ValueAt(entries[..|entries| - 1], i); }
  }

  lemma {:induction false} MapSize<K, V>(entries: seq<(K, V)>)
    requires Distinct(entries)
    ensures |AsMap(entries)| == |entries|
  {
    if entries != [] {
      var (front, last) := (entries[..|entries| - 1], entries[|entries| - 1]);
      MapSize(front);
      KeyOf(front, last.0);
      assert last.0 !in AsMap(front);
    }
  }

  lemma FindFront<K, V>(entries: seq<(K, V)>, key: K)
    requires entries != []
    ensures Find(entries, key) < |entries| <==>
      Find(entries[..|entries| - 1], key) < |entries| - 1 || entries[|entries| - 1].0 == key
  {
    var (front, i) := (entries[..|entries| - 1], Find(entries[..|entries| - 1], key));
    if i < |front| { assert entries[i].0 == key; }
    if Find(entries, key) < |front| { assert front[Find(entries, key)].0 == key; }
  }

  /** Putting an entry updates the map at that key, or is refused when the key is new and the
      map is full. */
  lemma PutRefines<K, V>(entries: seq<(K, V)>, key: K, value: V, bound: nat)
    requires Distinct(entries)
    ensures Distinct(PutEntry(entries, key, value, bound))
    ensures var m := AsMap(entries);
      AsMap(PutEntry(entries, key, value, bound)) == if key in m || |m| < bound then m[key := value] else m
  {
    var (i, entries') := (Find(entries, key), PutEntry(entries, key, value, bound));
    MapSize(entries);
    KeyOf(entries, key);
    if i < |entries| {
      Replaced(entries, i, value);
    } else if |entries| < bound {
      assert entries'[..|entries'| - 1] == entries;
    }
  }

  lemma {:induction false} Replaced<K, V>(entries: seq<(K, V)>, i: nat, value: V)
    requires Distinct(entries) && i < |entries|
    ensures AsMap(entries[i := (entries[i].0, value)]) == AsMap(entries)[entries[i].0 := value]
  {
    var (n, entries') := (|entries| - 1, entries[i := (entries[i].0, value)]);
    if i < n {
      assert entries'[..n] == entries[..n][i := (entries[i].0, value)];
      Replaced(entries[..n], i, value);
      assert entries[i].0 != entries[n].0;
    } else {
      assert entries'[..n] == entries[..n];
    }
  }
}
