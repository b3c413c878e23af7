/** The record cache: a linked list of entries, most recently used first, and a map from keys to
    list nodes. */
module LruCache {
  import opened Bytes
  import opened Recency
  import opened Packing

  // ---------- the cache as a value ----------

  /** Keys from most to least recently used, and the value of each. */
  datatype Cache = Cache(order: seq<Key>, values: map<Key, seq<byte>>)

  const EMPTY := Cache([], map[])

  ghost predicate WellFormed(c: Cache, capacity: nat) {
    && |c.order| <= capacity && Distinct(c.order)
    && forall k :: k in c.order <==> k in c.values
  }

  function Cached(c: Cache, k: Key): Option<seq<byte>> {
    if k in c.values then Some(c.values[k]) else None
  }

  /** A lookup moves what it finds to the front. */
  function CacheGet(c: Cache, k: Key): Cache {
    if k in c.values then c.(order := MoveToFront(c.order, k)) else c
  }

  /** The key that a full cache gives up: number `victim` counted from the least recently used. */
  function Victim(c: Cache, victim: nat): Key
    requires victim < |c.order|
  {
    c.order[|c.order| - 1 - victim]
  }

  function CachePut(c: Cache, capacity: nat, k: Key, v: seq<byte>, victim: nat): Cache {
    if k in c.values then Cache(MoveToFront(c.order, k), c.values[k := v])
    else if |c.order| < capacity || |c.order| <= victim then Cache([k] + c.order, c.values[k := v])
    else
      var gone := Victim(c, victim);
      Cache([k] + Without(c.order, gone), (c.values - {gone})[k := v])
  }

  /** Every cached value is the one `m` has. */
  ghost predicate Agrees(c: Cache, m: map<Key, seq<byte>>) {
    forall k :: k in c.values ==> k in m && m[k] == c.values[k]
  }

  lemma GetWellFormed(c: Cache, k: Key, capacity: nat)
    requires WellFormed(c, capacity)
    ensures WellFormed(CacheGet(c, k), capacity)
  {
    WithoutDistinct(c.order, k);
  }

  lemma PutWellFormed(c: Cache, capacity: nat, k: Key, v: seq<byte>, victim: nat)
    requires WellFormed(c, capacity) && capacity > 0 && (victim < |c.order| || c.order == [])
    ensures WellFormed(CachePut(c, capacity, k, v, victim), capacity)
  {
    WithoutDistinct(c.order, k);
    if |c.order| >= capacity {
      WithoutDistinct(c.order, Victim(c, victim));
    }
  }

  lemma {:induction false} PutAgrees(c: Cache, capacity: nat, k: Key, v: seq<byte>, victim: nat, m: map<Key, seq<byte>>)
    requires Agrees(c, m)
    ensures Agrees(CachePut(c, capacity, k, v, victim), m[k := v])
  {
  }

  /** Without a policy an insertion is one access of the bounded recency list of keys. */
  lemma {:induction false} PutIsLruAccess(c: Cache, capacity: nat, k: Key, v: seq<byte>)
    requires WellFormed(c, capacity) && capacity > 0
    ensures CachePut(c, capacity, k, v, 0).order == LruAccess(c.order, k, capacity)
  {
    if c.order != [] {
      WithoutLast(c.order);
    }
  }

  // ---------- the cache itself ----------

  type NodeId = nat

  /** The keys of a list of nodes; a node's id plays the part of the iterator that names it. */
  function KeysOf(list: seq<NodeId>, entries: map<NodeId, Entry>): (ks: seq<Key>)
    requires forall n :: n in list ==> n in entries
    ensures |ks| == |list| && forall i :: 0 <= i < |list| ==> ks[i] == entries[list[i]].key
  {
    seq(|list|, i requires 0 <= i < |list| => entries[list[i]].key)
  }

  lemma KeysOfCons(head: NodeId, tail: seq<NodeId>, entries: map<NodeId, Entry>)
    requires head in entries && forall n :: n in tail ==> n in entries
    ensures KeysOf([head] + tail, entries) == [entries[head].key] + KeysOf(tail, entries)
  {
  }

  lemma {:induction false} KeysWithout(list: seq<NodeId>, entries: map<NodeId, Entry>, id: NodeId)
    requires id in entries && forall n :: n in list ==> n in entries
    requires forall n :: n in list && entries[n].key == entries[id].key ==> n == id
    ensures KeysOf(Without(list, id), entries) == Without(KeysOf(list, entries), entries[id].key)
  {
    if list == [] {
    } else {
      hide KeysOf, Without;
      var head, tail := list[0], list[1..];
      assert list == [head] + tail && head in list && forall n :: n in tail ==> n in list;
      KeysWithout(tail, entries, id);
      KeysOfCons(head, tail, entries);
      WithoutCons(head, tail, id);
      WithoutCons(entries[head].key, KeysOf(tail, entries), entries[id].key);
      if head != id {
        KeysOfCons(head, Without(tail, id), entries);
      }
    }
  }

  /** Keys and iterators agree: each listed node's key maps to that node, and nothing else is mapped. */
  ghost predicate Linked(list: seq<NodeId>, entries: map<NodeId, Entry>, nodes: map<Key, NodeId>, nextId: NodeId) {
    && Distinct(list) && (forall n :: n in list <==> n in entries)
    && (forall n :: n in entries ==> n < nextId && entries[n].key in nodes && nodes[entries[n].key] == n)
    && (forall k :: k in nodes ==> nodes[k] in entries && entries[nodes[k]].key == k)
  }

  ghost function ContentsOf(list: seq<NodeId>, entries: map<NodeId, Entry>, nodes: map<Key, NodeId>): Cache
    requires forall n :: n in list ==> n in entries
    requires forall k :: k in nodes ==> nodes[k] in entries
  {
    Cache(KeysOf(list, entries), map k | k in nodes :: entries[nodes[k]].value)
  }

  lemma ContentsWellFormed(list: seq<NodeId>, entries: map<NodeId, Entry>, nodes: map<Key, NodeId>, nextId: NodeId)
    requires Linked(list, entries, nodes, nextId)
    ensures WellFormed(ContentsOf(list, entries, nodes), |list|)
  {
    forall k | k in nodes
      ensures k in KeysOf(list, entries)
    {
      var i :| 0 <= i < |list| && list[i] == nodes[k];
      assert KeysOf(list, entries)[i] == k;
    }
  }

  lemma SpliceLinked(list: seq<NodeId>, entries: map<NodeId, Entry>, nodes: map<Key, NodeId>, nextId: NodeId,
                     id: NodeId)
    requires Linked(list, entries, nodes, nextId) && id in entries
    ensures var moved := MoveToFront(list, id);
            var c := ContentsOf(list, entries, nodes);
            && |moved| == |list| && Linked(moved, entries, nodes, nextId)
            && ContentsOf(moved, entries, nodes) == c.(order := MoveToFront(c.order, entries[id].key))
  {
    WithoutDistinct(list, id);
    KeysWithout(list, entries, id);
    assert KeysOf(MoveToFront(list, id), entries) == [entries[id].key] + KeysOf(Without(list, id), entries);
  }

  lemma AssignLinked(list: seq<NodeId>, entries: map<NodeId, Entry>, nodes: map<Key, NodeId>, nextId: NodeId,
                     k: Key, v: seq<byte>)
    requires Linked(list, entries, nodes, nextId) && k in nodes
    ensures var entries' := entries[nodes[k] := Entry(k, v)];
            var c := ContentsOf(list, entries, nodes);
            && Linked(list, entries', nodes, nextId)
            && ContentsOf(list, entries', nodes) == c.(values := c.values[k := v])
  {
  }

  lemma EraseLinked(list: seq<NodeId>, entries: map<NodeId, Entry>, nodes: map<Key, NodeId>, nextId: NodeId, id: NodeId)
    requires Linked(list, entries, nodes, nextId) && id in entries
    ensures |Without(list, id)| == |list| - 1
    ensures Linked(Without(list, id), entries - {id}, nodes - {entries[id].key}, nextId)
  {
    WithoutDistinct(list, id);
  }

  lemma EraseContents(list: seq<NodeId>, entries: map<NodeId, Entry>, nodes: map<Key, NodeId>, nextId: NodeId,
                      id: NodeId)
    requires Linked(list, entries, nodes, nextId) && id in entries
    ensures var k, c := entries[id].key, ContentsOf(list, entries, nodes);
            && Linked(Without(list, id), entries - {id}, nodes - {k}, nextId)
            && ContentsOf(Without(list, id), entries - {id}, nodes - {k}) == Cache(Without(c.order, k), c.values - {k})
  {
    EraseLinked(list, entries, nodes, nextId, id);
    KeysWithout(list, entries, id);
    hide Distinct;
    ErasedValues(entries, nodes, id);
    var k, left := entries[id].key, Without(list, id);
    assert KeysOf(left, entries - {id}) == KeysOf(left, entries);
  }

  lemma ErasedValues(entries: map<NodeId, Entry>, nodes: map<Key, NodeId>, id: NodeId)
    requires forall k :: k in nodes ==> nodes[k] in entries && entries[nodes[k]].key == k
    requires id in entries && forall k :: k in nodes - {entries[id].key} ==> nodes[k] != id
    ensures var fewer, left := nodes - {entries[id].key}, entries - {id};
            (map k | k in fewer :: left[fewer[k]].value)
            == (map k | k in nodes :: entries[nodes[k]].value) - {entries[id].key}
  {
  }

  lemma PushLinked(list: seq<NodeId>, entries: map<NodeId, Entry>, nodes: map<Key, NodeId>, nextId: NodeId, k: Key,
                   v: seq<byte>)
    requires Linked(list, entries, nodes, nextId) && k !in nodes
    ensures var entries', nodes' := entries[nextId := Entry(k, v)], nodes[k := nextId];
            var c := ContentsOf(list, entries, nodes);
            && Linked([nextId] + list, entries', nodes', nextId + 1)
            && ContentsOf([nextId] + list, entries', nodes') == Cache([k] + c.order, c.values[k := v])
  {
    hide KeysOf, Linked, Distinct;
    PushedIsLinked(list, entries, nodes, nextId, k, v);
    PushedKeys(list, entries, nextId, k, v);
    PushedValues(entries, nodes, nextId, k, v);
  }

  lemma PushedKeys(list: seq<NodeId>, entries: map<NodeId, Entry>, nextId: NodeId, k: Key, v: seq<byte>)
    requires forall n :: n in list ==> n in entries && n != nextId
    ensures KeysOf([nextId] + list, entries[nextId := Entry(k, v)]) == [k] + KeysOf(list, entries)
  {
    var entries' := entries[nextId := Entry(k, v)];
    KeysOfCons(nextId, list, entries');
    var ks, ks' := KeysOf(list, entries), KeysOf(list, entries');
    forall i | 0 <= i < |list|
      ensures ks'[i] == ks[i]
    {
      assert list[i] in list;
    }
    assert ks' == ks;
  }

  lemma PushedValues(entries: map<NodeId, Entry>, nodes: map<Key, NodeId>, nextId: NodeId, k: Key, v: seq<byte>)
    requires k !in nodes && forall key :: key in nodes ==> nodes[key] in entries && nodes[key] != nextId
    ensures var entries', nodes' := entries[nextId := Entry(k, v)], nodes[k := nextId];
            (map key | key in nodes' :: entries'[nodes'[key]].value)
            == (map key | key in nodes :: entries[nodes[key]].value)[k := v]
  {
  }

  lemma PushedIsLinked(list: seq<NodeId>, entries: map<NodeId, Entry>, nodes: map<Key, NodeId>, nextId: NodeId,
                       k: Key, v: seq<byte>)
    requires Linked(list, entries, nodes, nextId) && k !in nodes
    ensures Linked([nextId] + list, entries[nextId := Entry(k, v)], nodes[k := nextId], nextId + 1)
    ensures forall n :: n in list ==> n in entries && n != nextId
    ensures forall key :: key in nodes ==> nodes[key] in entries && nodes[key] != nextId
  {
    hide Distinct;
    assert nextId !in list;
    DistinctCons(nextId, list);
    assert forall n :: n in [nextId] + list <==> n == nextId || n in list;
  }

  class LruCache {
    const capacity: nat
    /** Given the keys from least to most recently used, the index to evict; None evicts index 0. */
    const policy: Option<seq<Key> -> nat>
    var hits: nat
    var misses: nat
    var list: seq<NodeId>
    var entries: map<NodeId, Entry>
    var nodes: map<Key, NodeId>
    var nextId: NodeId

    ghost predicate Valid()
      reads this
    {
      0 < capacity && |list| <= capacity && Linked(list, entries, nodes, nextId)
    }

    ghost function Contents(): (c: Cache)
      requires Valid()
      reads this
      ensures WellFormed(c, capacity)
    {
      ContentsWellFormed(list, entries, nodes, nextId);
      ContentsOf(list, entries, nodes)
    }

    constructor (capacity: nat, policy: Option<seq<Key> -> nat>)
      requires capacity > 0
      ensures Valid() && this.capacity == capacity && this.policy == policy && Contents() == EMPTY
      ensures hits == misses == 0
    {
      this.capacity, this.policy := capacity, policy;
      hits, misses, list, entries, nodes, nextId := 0, 0, [], map[], map[], 0;
    }

    method Get(key: Key) returns (r: Option<seq<byte>>)
      requires Valid()
      modifies this
      ensures Valid() && r == Cached(old(Contents()), key) && Contents() == CacheGet(old(Contents()), key)
      ensures hits == old(hits) + (if r.Some? then 1 else 0)
      ensures misses == old(misses) + (if r.None? then 1 else 0)
    {
      hide KeysOf, MoveToFront, WellFormed;
      if key !in nodes {
        misses := misses + 1;
        return None;
      }
      hits := hits + 1;
      var id := nodes[key];
      SpliceLinked(list, entries, nodes, nextId, id);
      list := MoveToFront(list, id);
      r := Some(entries[id].value);
    }

    /** The index to evict, counted from the least recently used; an out-of-range choice means 0. */
    function VictimIndex(order: seq<Key>): (v: nat)
      ensures v < |order| || v == 0
      ensures policy.None? ==> v == 0
      ensures policy.Some? && policy.value(Reversed(order)) < |order| ==> v == policy.value(Reversed(order))
      ensures policy.Some? && policy.value(Reversed(order)) >= |order| ==> v == 0
    {
      var v := if policy.Some? then policy.value(Reversed(order)) else 0;
      if v >= |order| then 0 else v
    }

    method Put(key: Key, value: seq<byte>)
      requires Valid()
      modifies this
      ensures Valid()
      ensures var c := old(Contents()); Contents() == CachePut(c, capacity, key, value, VictimIndex(c.order))
      ensures hits == old(hits) && misses == old(misses)
    {
      hide Linked, KeysOf, WellFormed, MoveToFront, Distinct, Without, VictimIndex;
      if key in nodes {
        var id := nodes[key];
        Known(key);
        SpliceLinked(list, entries, nodes, nextId, id);
        list := MoveToFront(list, id);
        AssignLinked(list, entries, nodes, nextId, key, value);
        entries := entries[id := Entry(key, value)];
        return;
      }
      if |list| >= capacity {
        Evict();
      }
      Push(key, value);
    }

    method Push(key: Key, value: seq<byte>)
      requires Valid() && |list| < capacity && key !in nodes
      modifies this`list, this`entries, this`nodes, this`nextId
      ensures Valid()
      ensures var c := old(Contents()); Contents() == Cache([key] + c.order, c.values[key := value])
    {
      hide Linked, KeysOf, WellFormed, MoveToFront, Distinct, Without;
      PushLinked(list, entries, nodes, nextId, key, value);
      list := [nextId] + list;
      entries := entries[nextId := Entry(key, value)];
      nodes := nodes[key := nextId];
      nextId := nextId + 1;
    }

    /** Gives up the entry the policy names. */
    method Evict()
      requires Valid() && list != []
      modifies this`list, this`entries, this`nodes
      ensures Valid() && |list| < old(|list|) && (forall k :: k in nodes ==> k in old(nodes))
      ensures var c := old(Contents());
              var gone := Victim(c, VictimIndex(c.order));
              Contents() == Cache(Without(c.order, gone), c.values - {gone})
    {
      hide Distinct, Linked, KeysOf, WellFormed, VictimIndex, Without;
      Listed();
      var order := KeysOf(list, entries);
      var victim := list[|list| - 1 - VictimIndex(order)];
      assert entries[victim].key == order[|order| - 1 - VictimIndex(order)];
      EraseLinked(list, entries, nodes, nextId, victim);
      EraseContents(list, entries, nodes, nextId, victim);
      nodes := nodes - {entries[victim].key};
      list := Without(list, victim);
      entries := entries - {victim};
    }

    /** A full cache gives up the key that its policy names, counted from the least recently used. */
    lemma {:induction false} PolicyDecides(c: Cache, key: Key, value: seq<byte>)
      requires key !in c.values && |c.order| >= capacity > 0 && policy.Some?
      ensures var keys := Reversed(c.order);
              var gone := keys[if policy.value(keys) < |keys| then policy.value(keys) else 0];
              CachePut(c, capacity, key, value, VictimIndex(c.order)).values.Keys == c.values.Keys - {gone} + {key}
    {
    }

    lemma Known(key: Key)
      requires Valid() && key in nodes
      ensures nodes[key] in entries && entries[nodes[key]].key == key
    {
    }

    lemma Listed()
      requires Valid()
      ensures forall n :: n in list ==> n in entries
    {
    }
  }

  function Reversed<T>(s: seq<T>): (r: seq<T>)
    ensures |r| == |s| && forall i :: 0 <= i < |s| ==> r[i] == s[|s| - 1 - i]
  {
    seq(|s|, i requires 0 <= i < |s| => s[|s| - 1 - i])
  }
}
