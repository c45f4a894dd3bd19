/** src/client/metadata_cache.cpp:113-233: a recency list of nodes and an index from keys to nodes, updated together.
  * The block-location cache is this class at inode ids and block lists, the directory cache at paths and entry lists. */
module LruCache {
  import opened Bytes
  import opened LruList

  /** A list node. `node` is its identity, what an iterator to it holds. */
  datatype Slot<K, V> = Slot(node: nat, key: K, entry: Entry<V>)

  function Lines<K, V>(slots: seq<Slot<K, V>>): (l: seq<Line<K, V>>)
    ensures |l| == |slots|
    ensures forall i | 0 <= i < |l| :: l[i] == Line(slots[i].key, slots[i].entry)
  {
    seq(|slots|, i requires 0 <= i < |slots| => Line(slots[i].key, slots[i].entry))
  }

  /** The index leads from the key of slot `i` to its node. */
  predicate SlotOk<K(==), V>(slots: seq<Slot<K, V>>, index: map<K, nat>, next: nat, i: nat) {
    i < |slots| && slots[i].node < next && slots[i].key in index && index[slots[i].key] == slots[i].node
  }

  ghost predicate Distinct<K, V>(slots: seq<Slot<K, V>>) {
    forall i: nat, j: nat | i < j < |slots| :: slots[i].node != slots[j].node
  }

  ghost predicate Listed<K(!new), V(!new)>(slots: seq<Slot<K, V>>, k: K) {
    exists slot :: slot in slots && slot.key == k
  }

  /** Nodes are distinct, and the index leads from every key of the list to its node, and from no other key. */
  ghost predicate Indexed<K(!new), V(!new)>(slots: seq<Slot<K, V>>, index: map<K, nat>, next: nat) {
    && (forall i: nat {:trigger SlotOk(slots, index, next, i)} | i < |slots| :: SlotOk(slots, index, next, i))
    && Distinct(slots)
    && (forall k {:trigger Listed(slots, k)} | k in index :: Listed(slots, k))
  }

  function Without<K, V>(slots: seq<Slot<K, V>>, i: nat): (r: seq<Slot<K, V>>)
    requires i < |slots|
    ensures |r| == |slots| - 1
    ensures forall j: nat | j < |r| :: r[j] == slots[if j < i then j else j + 1]
    ensures forall slot | slot in slots && slot != slots[i] :: slot in r
  {
    slots[..i] + slots[i + 1..]
  }

  lemma KeysUnique<K(!new), V(!new)>(slots: seq<Slot<K, V>>, index: map<K, nat>, next: nat, i: nat, j: nat)
    requires Indexed(slots, index, next) && i < j < |slots|
    ensures slots[i].key != slots[j].key
  {
    assert SlotOk(slots, index, next, i) && SlotOk(slots, index, next, j);
  }

  lemma IndexWithout<K(!new), V(!new)>(slots: seq<Slot<K, V>>, index: map<K, nat>, next: nat, i: nat)
    requires Indexed(slots, index, next) && i < |slots|
    ensures Indexed(Without(slots, i), index - {slots[i].key}, next)
  {
    var rest, k := Without(slots, i), slots[i].key;
    forall j: nat | j < |rest|
      ensures SlotOk(rest, index - {k}, next, j)
    {
      var at := if j < i then j else j + 1;
      assert SlotOk(slots, index, next, at);
      KeysUnique(slots, index, next, if at < i then at else i, if at < i then i else at);
    }
    forall key | key in index - {k}
      ensures Listed(rest, key)
    {
      assert Listed(slots, key);
    }
  }

  lemma IndexFront<K(!new), V(!new)>(slots: seq<Slot<K, V>>, index: map<K, nat>, next: nat, slot: Slot<K, V>)
    requires Indexed(slots, index, next) && slot.key !in index
    requires slot.node < next && forall i | 0 <= i < |slots| :: slots[i].node != slot.node
    ensures Indexed([slot] + slots, index[slot.key := slot.node], next)
  {
    var all, index' := [slot] + slots, index[slot.key := slot.node];
    forall i: nat | i < |all|
      ensures SlotOk(all, index', next, i)
    {
      assert i > 0 ==> SlotOk(slots, index, next, i - 1);
    }
    forall key | key in index'
      ensures Listed(all, key)
    {
      assert key in index ==> Listed(slots, key);
      assert slot in all;
    }
  }

  lemma IndexLater<K(!new), V(!new)>(slots: seq<Slot<K, V>>, index: map<K, nat>, next: nat)
    requires Indexed(slots, index, next)
    ensures Indexed(slots, index, next + 1)
    ensures forall i | 0 <= i < |slots| :: slots[i].node != next
  {
    forall i: nat | i < |slots|
      ensures SlotOk(slots, index, next + 1, i) && slots[i].node != next
    {
      assert SlotOk(slots, index, next, i);
    }
  }

  /** As many keys in the index as nodes in the list. */
  lemma {:induction false} IndexSize<K(!new), V(!new)>(slots: seq<Slot<K, V>>, index: map<K, nat>, next: nat)
    requires Indexed(slots, index, next)
    ensures |index| == |slots|
  {
    if slots == [] {
      forall k
        ensures k !in index
      {
        assert k in index ==> Listed(slots, k);
      }
      assert index == map[];
    } else {
      var last := |slots| - 1;
      var k := slots[last].key;
      assert SlotOk(slots, index, next, last);
      IndexWithout(slots, index, next, last);
      IndexSize(Without(slots, last), index - {k}, next);
      assert index.Keys == (index - {k}).Keys + {k};
    }
  }

  lemma LinesUnique<K(!new), V(!new)>(slots: seq<Slot<K, V>>, index: map<K, nat>, next: nat)
    requires Indexed(slots, index, next)
    ensures Unique(Lines(slots))
  {
    forall i, j | 0 <= i < j < |slots|
      ensures Lines(slots)[i].key != Lines(slots)[j].key
    {
      KeysUnique(slots, index, next, i, j);
    }
  }

  /** What the list operations are on lines. */
  lemma LineAt<K(!new), V(!new)>(slots: seq<Slot<K, V>>, index: map<K, nat>, next: nat, i: nat)
    requires Indexed(slots, index, next) && i < |slots|
    ensures Find(Lines(slots), slots[i].key) == Some(slots[i].entry)
    ensures Remove(Lines(slots), slots[i].key) == Lines(Without(slots, i))
  {
    LinesUnique(slots, index, next);
    var l := Lines(slots);
    FoundAt(l, i);
    RemoveAt(l, i);
    LinesWithout(slots, i);
  }

  lemma LinesWithout<K, V>(slots: seq<Slot<K, V>>, i: nat)
    requires i < |slots|
    ensures Lines(Without(slots, i)) == Lines(slots)[..i] + Lines(slots)[i + 1..]
  {
  }

  lemma LineMissing<K(!new), V(!new)>(slots: seq<Slot<K, V>>, index: map<K, nat>, next: nat, k: K)
    requires Indexed(slots, index, next) && k !in index
    ensures Find(Lines(slots), k) == None && Remove(Lines(slots), k) == Lines(slots)
  {
    var l := Lines(slots);
    forall x | x in l
      ensures x.key != k
    {
      var i :| 0 <= i < |l| && l[i] == x;
      assert SlotOk(slots, index, next, i);
    }
    RemoveAbsent(l, k);
  }

  lemma LinesPush<K, V>(slot: Slot<K, V>, slots: seq<Slot<K, V>>)
    ensures Lines([slot] + slots) == [Line(slot.key, slot.entry)] + Lines(slots)
  {
  }

  class LruCache<K(==, !new), V(!new)> {
    const maxEntries: nat
    var ttlSeconds: nat
    var lru: seq<Slot<K, V>>
    var index: map<K, nat>
    var nextNode: nat

    ghost predicate Valid()
      reads this
    {
      Indexed(lru, index, nextNode) && |lru| == |index| <= maxEntries
    }

    constructor (maxEntries: nat, ttlSeconds: nat)
      ensures Valid() && lru == [] && this.maxEntries == maxEntries && this.ttlSeconds == ttlSeconds
    {
      this.maxEntries, this.ttlSeconds := maxEntries, ttlSeconds;
      lru, index, nextNode := [], map[], 0;
    }

    /** Where the node an iterator points to stands in the list. */
    method Position(key: K) returns (i: nat)
      requires Valid() && key in index
      ensures i < |lru| && lru[i].key == key
    {
      assert Listed(lru, key);
      ghost var slot :| slot in lru && slot.key == key;
      ghost var at :| 0 <= at < |lru| && lru[at] == slot;
      assert SlotOk(lru, index, nextNode, at);
      i := 0;
      while lru[i].node != index[key]
        invariant i <= at < |lru|
        decreases at - i
      {
        i := i + 1;
      }
    }

    method Erase(i: nat)
      requires Valid() && i < |lru|
      modifies this`lru, this`index
      ensures Valid() && Lines(lru) == Remove(old(Lines(lru)), old(lru)[i].key)
    {
      LineAt(lru, index, nextNode, i);
      IndexWithout(lru, index, nextNode, i);
      lru, index := Without(lru, i), index - {lru[i].key};
      IndexSize(lru, index, nextNode);
    }

    /** splice to the front. */
    method MoveUp(i: nat, entry: Entry<V>)
      requires Valid() && i < |lru|
      modifies this`lru
      ensures Valid()
      ensures Lines(lru) == [Line(old(lru)[i].key, entry)] + Remove(old(Lines(lru)), old(lru)[i].key)
    {
      var slot := lru[i].(entry := entry);
      LineAt(lru, index, nextNode, i);
      IndexMovedUp(lru, index, nextNode, i, entry);
      LinesPush(slot, Without(lru, i));
      lru := [slot] + Without(lru, i);
    }

    /** Get, src/client/metadata_cache.cpp:113-130 and 175-192: an expired entry goes, a live one comes to the front. */
    method Get(key: K, now: nat) returns (r: Option<V>)
      requires Valid()
      modifies this`lru, this`index
      ensures Valid()
      ensures r == Answer(old(Lines(lru)), key, now)
      ensures Lines(lru) == Apply(old(Lines(lru)), Op.Get(key, now), maxEntries)
    {
      if key !in index {
        LineMissing(lru, index, nextNode, key);
        return None;
      }
      var i := Position(key);
      var entry := lru[i].entry;
      LineAt(lru, index, nextNode, i);
      if IsExpired(entry, now) {
        Erase(i);
        return None;
      }
      MoveUp(i, entry);
      r := Some(entry.value);
    }

    /** Put, src/client/metadata_cache.cpp:132-160 and 194-222. */
    method Put(key: K, value: V, version: nat, now: nat)
      requires Valid()
      modifies this
      ensures Valid() && ttlSeconds == old(ttlSeconds)
      ensures Lines(lru) == Apply(old(Lines(lru)), Op.Put(key, value, version, now, ttlSeconds), maxEntries)
    {
      var entry := NewEntry(value, version, now, ttlSeconds);
      if key in index {
        var i := Position(key);
        LineAt(lru, index, nextNode, i);
        MoveUp(i, entry);
      } else {
        LineMissing(lru, index, nextNode, key);
        PushFront(key, entry);
        Evict();
      }
    }

    method PushFront(key: K, entry: Entry<V>)
      requires Valid() && key !in index
      modifies this`lru, this`index, this`nextNode
      ensures Indexed(lru, index, nextNode)
      ensures Lines(lru) == [Line(key, entry)] + old(Lines(lru))
    {
      var slot := Slot(nextNode, key, entry);
      IndexLater(lru, index, nextNode);
      IndexFront(lru, index, nextNode + 1, slot);
      LinesPush(slot, lru);
      lru, index, nextNode := [slot] + lru, index[key := nextNode], nextNode + 1;
    }

    /** The eviction loop of Put. */
    method Evict()
      requires Indexed(lru, index, nextNode)
      modifies this`lru, this`index
      ensures Valid()
      ensures Lines(lru) == Truncate(old(Lines(lru)), maxEntries)
    {
      ghost var all := lru;
      IndexSize(lru, index, nextNode);
      while |index| > maxEntries
        invariant Indexed(lru, index, nextNode) && |index| == |lru| <= |all|
        invariant lru == all[..|lru|]
        invariant |all| > maxEntries ==> |lru| >= maxEntries
        invariant |all| <= maxEntries ==> |lru| == |all|
        decreases |lru|
      {
        var last := |lru| - 1;
        IndexWithout(lru, index, nextNode, last);
        assert Without(lru, last) == lru[..last];
        index := index - {lru[last].key};
        lru := lru[..last];
        IndexSize(lru, index, nextNode);
      }
    }

    /** Invalidate, src/client/metadata_cache.cpp:162-171 and 224-233. */
    method Invalidate(key: K)
      requires Valid()
      modifies this`lru, this`index
      ensures Valid()
      ensures Lines(lru) == Apply(old(Lines(lru)), Op.Invalidate(key), maxEntries)
    {
      if key !in index {
        LineMissing(lru, index, nextNode, key);
        return;
      }
      var i := Position(key);
      Erase(i);
    }
  }

  lemma IndexMovedUp<K(!new), V(!new)>(slots: seq<Slot<K, V>>, index: map<K, nat>, next: nat, i: nat, entry: Entry<V>)
    requires Indexed(slots, index, next) && i < |slots|
    ensures Indexed([slots[i].(entry := entry)] + Without(slots, i), index, next)
  {
    var slot := slots[i].(entry := entry);
    assert SlotOk(slots, index, next, i);
    IndexWithout(slots, index, next, i);
    IndexFront(Without(slots, i), index - {slot.key}, next, slot);
    assert (index - {slot.key})[slot.key := slot.node] == index;
  }
}
