/** src/client/metadata_cache.cpp:113-233 as values: the recency list of the block-location and of the directory cache,
  * which share one code. */
module LruList {
  import opened Bytes

  datatype Entry<V> = Entry(value: V, version: nat, expireTime: nat)

  datatype Line<K, V> = Line(key: K, entry: Entry<V>)

  /** 0 means never, though the 64-bit sum of clock and time-to-live may also be 0. */
  predicate IsExpired<V>(e: Entry<V>, now: nat) {
    e.expireTime != 0 && now > e.expireTime
  }

  function NewEntry<V>(value: V, version: nat, now: nat, ttl: nat): Entry<V> {
    Entry(value, version, (now + ttl * 1_000_000_000 % TWO_64) % TWO_64)
  }

  // ---- lists with one line per key ----

  function Find<K(==), V>(l: seq<Line<K, V>>, k: K): (r: Option<Entry<V>>)
    ensures r.Some? ==> Line(k, r.value) in l
    ensures r.None? ==> forall x | x in l :: x.key != k
  {
    if l == [] then None
    else if l[0].key == k then Some(l[0].entry)
    else Find(l[1..], k)
  }

  /** The lines of other keys, in order. */
  function Remove<K(==), V>(l: seq<Line<K, V>>, k: K): (r: seq<Line<K, V>>)
    ensures |r| <= |l| && forall x | x in r :: x in l && x.key != k
  {
    if l == [] then [] else (if l[0].key == k then [] else [l[0]]) + Remove(l[1..], k)
  }

  /** The lines whose key is in `ks`, in order. */
  ghost function Keep<K(!new), V>(l: seq<Line<K, V>>, ks: iset<K>): (r: seq<Line<K, V>>)
    ensures |r| <= |l| && forall x | x in r :: x in l && x.key in ks
  {
    if l == [] then [] else (if l[0].key in ks then [l[0]] else []) + Keep(l[1..], ks)
  }

  predicate Unique<K(==), V>(l: seq<Line<K, V>>) {
    forall i, j | 0 <= i < j < |l| :: l[i].key != l[j].key
  }

  function Truncate<K, V>(l: seq<Line<K, V>>, cap: nat): seq<Line<K, V>> {
    if |l| > cap then l[..cap] else l
  }

  // ---- the three operations ----

  datatype Op<K, V> =
    | Get(key: K, now: nat)
    | Put(key: K, value: V, version: nat, now: nat, ttl: nat)
    | Invalidate(key: K)

  function Apply<K(==), V>(l: seq<Line<K, V>>, op: Op<K, V>, cap: nat): seq<Line<K, V>> {
    match op
    case Get(k, now) =>
      (match Find(l, k)
       case None => l
       case Some(e) => if IsExpired(e, now) then Remove(l, k) else [Line(k, e)] + Remove(l, k))
    case Put(k, value, version, now, ttl) =>
      var line := Line(k, NewEntry(value, version, now, ttl));
      if Find(l, k).Some? then [line] + Remove(l, k) else Truncate([line] + l, cap)
    case Invalidate(k) => Remove(l, k)
  }

  /** What a Get hands out. */
  function Answer<K(==), V>(l: seq<Line<K, V>>, k: K, now: nat): Option<V> {
    match Find(l, k)
    case None => None
    case Some(e) => if IsExpired(e, now) then None else Some(e.value)
  }

  // ---- lemmas about lists ----

  lemma FindPush<K, V>(x: Line<K, V>, l: seq<Line<K, V>>, k: K)
    ensures Find([x] + l, k) == if x.key == k then Some(x.entry) else Find(l, k)
  {
    assert ([x] + l)[1..] == l;
  }

  lemma RemovePush<K, V>(x: Line<K, V>, l: seq<Line<K, V>>, k: K)
    ensures Remove([x] + l, k) == (if x.key == k then [] else [x]) + Remove(l, k)
  {
    assert ([x] + l)[1..] == l;
  }

  lemma KeepPush<K(!new), V>(x: Line<K, V>, l: seq<Line<K, V>>, ks: iset<K>)
    ensures Keep([x] + l, ks) == (if x.key in ks then [x] else []) + Keep(l, ks)
  {
    assert ([x] + l)[1..] == l;
  }

  lemma {:induction false} RemoveAbsent<K, V>(l: seq<Line<K, V>>, k: K)
    requires Find(l, k).None?
    ensures Remove(l, k) == l
  {
    if l != [] {
      RemoveAbsent(l[1..], k);
    }
  }

  lemma UniqueTail<K, V>(l: seq<Line<K, V>>)
    requires Unique(l) && l != []
    ensures Unique(l[1..]) && Find(l[1..], l[0].key).None?
  {
  }

  lemma {:induction false} RemoveOne<K, V>(l: seq<Line<K, V>>, k: K)
    requires Unique(l)
    ensures Unique(Remove(l, k))
    ensures |Remove(l, k)| == if Find(l, k).Some? then |l| - 1 else |l|
  {
    if l != [] {
      UniqueTail(l);
      RemoveOne(l[1..], k);
      if l[0].key == k {
        RemoveAbsent(l[1..], k);
      } else {
        UniquePush(l[0], Remove(l[1..], k));
      }
    }
  }

  lemma UniquePush<K, V>(x: Line<K, V>, l: seq<Line<K, V>>)
    requires Unique(l) && forall y | y in l :: y.key != x.key
    ensures Unique([x] + l)
  {
  }

  lemma {:induction false} KeepRemove<K(!new), V>(l: seq<Line<K, V>>, ks: iset<K>, k: K)
    ensures Keep(Remove(l, k), ks) == Remove(Keep(l, ks), k)
  {
    if l != [] {
      var x, m := l[0], l[1..];
      KeepRemove(m, ks, k);
      RemovePush(x, Keep(m, ks), k);
      KeepPush(x, Remove(m, k), ks);
      assert [] + Remove(m, k) == Remove(m, k) && [] + Keep(m, ks) == Keep(m, ks);
    }
  }

  /** Keys that do not occur make no difference. */
  lemma {:induction false} KeepSame<K(!new), V>(l: seq<Line<K, V>>, ks: iset<K>, ks': iset<K>)
    requires forall x | x in l :: x.key in ks <==> x.key in ks'
    ensures Keep(l, ks) == Keep(l, ks')
  {
    if l != [] {
      KeepSame(l[1..], ks, ks');
    }
  }

  lemma {:induction false} KeepLess<K(!new), V>(l: seq<Line<K, V>>, ks: iset<K>, k: K)
    ensures Keep(l, ks - iset{k}) == Remove(Keep(l, ks), k)
  {
    if l != [] {
      var x, m := l[0], l[1..];
      KeepLess(m, ks, k);
      RemovePush(x, Keep(m, ks), k);
      assert [] + Keep(m, ks) == Keep(m, ks);
    }
  }

  lemma {:induction false} KeepFind<K(!new), V>(l: seq<Line<K, V>>, ks: iset<K>, k: K)
    ensures Find(Keep(l, ks), k) == if k in ks then Find(l, k) else None
  {
    if l != [] {
      var x, m := l[0], l[1..];
      KeepFind(m, ks, k);
      FindPush(x, Keep(m, ks), k);
      assert [] + Keep(m, ks) == Keep(m, ks);
    }
  }

  lemma {:induction false} KeepUnique<K(!new), V>(l: seq<Line<K, V>>, ks: iset<K>)
    requires Unique(l)
    ensures Unique(Keep(l, ks))
  {
    if l != [] {
      UniqueTail(l);
      KeepUnique(l[1..], ks);
      if l[0].key in ks {
        UniquePush(l[0], Keep(l[1..], ks));
      }
    }
  }

  lemma {:induction false} KeepConcat<K(!new), V>(a: seq<Line<K, V>>, b: seq<Line<K, V>>, ks: iset<K>)
    ensures Keep(a + b, ks) == Keep(a, ks) + Keep(b, ks)
  {
    if a == [] {
      assert a + b == b;
      assert [] + Keep(b, ks) == Keep(b, ks);
    } else {
      var x, rest := a[0], a[1..];
      KeepConcat(rest, b, ks);
      assert a == [x] + rest;
      PushConcat(x, rest, b);
      KeepPush(x, rest + b, ks);
      JoinThree(if x.key in ks then [x] else [], Keep(rest, ks), Keep(b, ks));
    }
  }

  lemma PushConcat<T>(x: T, rest: seq<T>, b: seq<T>)
    ensures ([x] + rest) + b == [x] + (rest + b)
  {
  }

  lemma JoinThree<T>(a: seq<T>, b: seq<T>, c: seq<T>)
    ensures (a + b) + c == a + (b + c)
  {
  }

  lemma KeepFront<K(!new), V>(l: seq<Line<K, V>>, ks: iset<K>)
    requires l != []
    ensures var last := |l| - 1;
            Keep(l, ks) == Keep(l[..last], ks) + if l[last].key in ks then [l[last]] else []
  {
    var x := l[|l| - 1];
    assert l == l[..|l| - 1] + [x];
    KeepConcat(l[..|l| - 1], [x], ks);
    KeepPush(x, [], ks);
    assert [x] + [] == [x];
  }

  lemma {:induction false} RemoveLast<K, V>(l: seq<Line<K, V>>)
    requires Unique(l) && l != []
    ensures Remove(l, l[|l| - 1].key) == l[..|l| - 1]
  {
    UniqueTail(l);
    if |l| > 1 {
      RemoveLast(l[1..]);
      assert l[1..][..|l| - 2] == l[..|l| - 1][1..];
    }
  }

  lemma {:induction false} RemoveAt<K, V>(l: seq<Line<K, V>>, i: nat)
    requires Unique(l) && i < |l|
    ensures Remove(l, l[i].key) == l[..i] + l[i + 1..]
  {
    var x, rest := l[0], l[1..];
    assert l == [x] + rest;
    RemovePush(x, rest, l[i].key);
    UniqueTail(l);
    if i == 0 {
      RemoveAbsent(rest, x.key);
      assert [] + rest == l[..i] + l[i + 1..];
    } else {
      RemoveAt(rest, i - 1);
      DropLater(l, i);
    }
  }

  lemma DropLater<T>(l: seq<T>, i: nat)
    requires 0 < i < |l|
    ensures [l[0]] + (l[1..][..i - 1] + l[1..][i..]) == l[..i] + l[i + 1..]
  {
  }

  lemma {:induction false} FoundIsOnly<K, V>(l: seq<Line<K, V>>, k: K)
    requires Unique(l)
    ensures forall x | x in l && x.key == k :: Find(l, k) == Some(x.entry)
  {
    if l != [] {
      UniqueTail(l);
      FoundIsOnly(l[1..], k);
    }
  }

  lemma FoundAt<K, V>(l: seq<Line<K, V>>, i: nat)
    requires Unique(l) && i < |l|
    ensures Find(l, l[i].key) == Some(l[i].entry)
  {
    assert l[i] in l;
    FoundIsOnly(l, l[i].key);
  }

  // ---- inclusion ----

  /** The small list is the part of the large one with the keys `ks`, in the same order; the large list lacks no more lines
    * than its extra capacity. */
  ghost predicate Included<K(!new), V>(small: seq<Line<K, V>>, capS: nat, large: seq<Line<K, V>>, capL: nat, ks: iset<K>) {
    && Unique(large) && small == Keep(large, ks)
    && |small| <= capS && |large| <= capL && |large| - |small| <= capL - capS
  }

  /** An older line leaves the small list for want of room. */
  lemma EvictSmall<K(!new), V>(large: seq<Line<K, V>>, ks: iset<K>, capS: nat) returns (ks': iset<K>)
    requires Unique(large) && large != [] && |Keep(large, ks)| <= capS + 1
    ensures Keep(large, ks') == Truncate(Keep(large, ks), capS)
    ensures |Keep(large, ks)| == capS + 1 ==> large[|large| - 1].key !in ks'
  {
    var small := Keep(large, ks);
    ks' := ks;
    if |small| > capS {
      var y := small[|small| - 1].key;
      ks' := ks - iset{y};
      KeepUnique(large, ks);
      KeepLess(large, ks, y);
      RemoveLast(small);
      KeepFront(large, ks);
    }
  }

  /** So does the last line of the large list, which the small one no longer has. */
  lemma EvictLarge<K(!new), V>(large: seq<Line<K, V>>, ks: iset<K>, capL: nat)
    requires large != [] && |large| <= capL + 1 && (|large| == capL + 1 ==> large[|large| - 1].key !in ks)
    ensures Keep(Truncate(large, capL), ks) == Keep(large, ks)
  {
    KeepFront(large, ks);
    assert Keep(large[..|large| - 1], ks) + [] == Keep(large[..|large| - 1], ks);
  }

  /** A line new to the small list comes in front of both. */
  lemma PushBoth<K(!new), V>(x: Line<K, V>, rest: seq<Line<K, V>>, ks: iset<K>)
    requires Find(rest, x.key).None?
    ensures Keep([x] + rest, ks + iset{x.key}) == [x] + Keep(rest, ks)
  {
    KeepPush(x, rest, ks + iset{x.key});
    KeepSame(rest, ks, ks + iset{x.key});
  }

  lemma FindRemoved<K, V>(l: seq<Line<K, V>>, k: K)
    ensures Find(Remove(l, k), k).None?
  {
  }

  /** A line already in the large list moves to its front; the small list has it too, or not. */
  lemma MoveToFront<K(!new), V>(large: seq<Line<K, V>>, ks: iset<K>, x: Line<K, V>)
    requires Unique(large) && Find(large, x.key).Some?
    ensures Unique([x] + Remove(large, x.key)) && |[x] + Remove(large, x.key)| == |large|
    ensures Keep([x] + Remove(large, x.key), ks) == (if x.key in ks then [x] else []) + Remove(Keep(large, ks), x.key)
  {
    RemoveOne(large, x.key);
    UniquePush(x, Remove(large, x.key));
    KeepPush(x, Remove(large, x.key), ks);
    KeepRemove(large, ks, x.key);
  }

  lemma SmallSizes<K(!new), V>(large: seq<Line<K, V>>, ks: iset<K>, k: K)
    requires Unique(large)
    ensures Find(Keep(large, ks), k) == if k in ks then Find(large, k) else None
    ensures |Remove(Keep(large, ks), k)| == |Keep(large, ks)| - if k in ks && Find(large, k).Some? then 1 else 0
    ensures |Remove(large, k)| == |large| - if Find(large, k).Some? then 1 else 0
    ensures k !in ks || Find(large, k).None? ==> Remove(Keep(large, ks), k) == Keep(large, ks)
  {
    KeepFind(large, ks, k);
    KeepUnique(large, ks);
    RemoveOne(Keep(large, ks), k);
    RemoveOne(large, k);
    if Find(Keep(large, ks), k).None? {
      RemoveAbsent(Keep(large, ks), k);
    }
  }

  lemma InvalidateIncluded<K(!new), V>(small: seq<Line<K, V>>, capS: nat, large: seq<Line<K, V>>, capL: nat, ks: iset<K>, k: K)
    requires Included(small, capS, large, capL, ks)
    ensures Included(Remove(small, k), capS, Remove(large, k), capL, ks)
  {
    SmallSizes(large, ks, k);
    KeepRemove(large, ks, k);
    RemoveOne(large, k);
  }

  lemma GetIncluded<K(!new), V>(small: seq<Line<K, V>>, capS: nat, large: seq<Line<K, V>>, capL: nat, ks: iset<K>,
                                k: K, now: nat)
    requires Included(small, capS, large, capL, ks)
    ensures Included(Apply(small, Get(k, now), capS), capS, Apply(large, Get(k, now), capL), capL, ks)
  {
    SmallSizes(large, ks, k);
    match Find(large, k) {
      case None =>
      case Some(e) =>
        if IsExpired(e, now) {
          InvalidateIncluded(small, capS, large, capL, ks, k);
        } else {
          MoveToFront(large, ks, Line(k, e));
          assert [] + Keep(large, ks) == Keep(large, ks);
        }
    }
  }

  /** Put of a key the large list has and the small one has not. */
  lemma PutIntoSmall<K(!new), V>(small: seq<Line<K, V>>, capS: nat, large: seq<Line<K, V>>, capL: nat, ks: iset<K>, x: Line<K, V>)
    returns (ks': iset<K>)
    requires Included(small, capS, large, capL, ks) && Find(large, x.key).Some? && Find(small, x.key).None?
    ensures Included(Truncate([x] + small, capS), capS, [x] + Remove(large, x.key), capL, ks')
  {
    var k := x.key;
    SmallSizes(large, ks, k);
    MoveToFront(large, ks, x);
    KeepRemove(large, ks, k);
    RemoveAbsent(small, k);
    FindRemoved(large, k);
    PushBoth(x, Remove(large, k), ks);
    ks' := EvictSmall([x] + Remove(large, k), ks + iset{k}, capS);
  }

  /** Put of a key neither list has. */
  lemma PutIntoBoth<K(!new), V>(small: seq<Line<K, V>>, capS: nat, large: seq<Line<K, V>>, capL: nat, ks: iset<K>, x: Line<K, V>)
    returns (ks': iset<K>)
    requires Included(small, capS, large, capL, ks) && Find(large, x.key).None?
    ensures Included(Truncate([x] + small, capS), capS, Truncate([x] + large, capL), capL, ks')
  {
    var pushed := [x] + large;
    UniquePush(x, large);
    PushBoth(x, large, ks);
    ks' := EvictSmall(pushed, ks + iset{x.key}, capS);
    EvictLarge(pushed, ks', capL);
    TruncateUnique(pushed, capL);
  }

  lemma TruncateUnique<K, V>(l: seq<Line<K, V>>, cap: nat)
    requires Unique(l) && |l| <= cap + 1
    ensures Unique(Truncate(l, cap))
  {
    if |l| > cap {
      RemoveLast(l);
      RemoveOne(l, l[|l| - 1].key);
    }
  }

  /** The same operation, with the same clock and time-to-live, keeps a smaller cache included in a larger one. */
  lemma StepIncluded<K(!new), V>(small: seq<Line<K, V>>, capS: nat, large: seq<Line<K, V>>, capL: nat, ks: iset<K>,
                                 op: Op<K, V>)
    returns (ks': iset<K>)
    requires Included(small, capS, large, capL, ks)
    ensures Included(Apply(small, op, capS), capS, Apply(large, op, capL), capL, ks')
  {
    ks' := ks;
    match op {
      case Get(k, now) => GetIncluded(small, capS, large, capL, ks, k, now);
      case Invalidate(k) => InvalidateIncluded(small, capS, large, capL, ks, k);
      case Put(k, value, version, now, ttl) =>
        var x := Line(k, NewEntry(value, version, now, ttl));
        SmallSizes(large, ks, k);
        if Find(large, k).None? {
          ks' := PutIntoBoth(small, capS, large, capL, ks, x);
        } else if Find(small, k).None? {
          ks' := PutIntoSmall(small, capS, large, capL, ks, x);
        } else {
          MoveToFront(large, ks, x);
        }
    }
  }

  // ---- whole traces ----

  /** The list after a trace of operations on an empty cache. */
  function Run<K(==), V>(ops: seq<Op<K, V>>, cap: nat): seq<Line<K, V>> {
    if ops == [] then [] else Apply(Run(ops[..|ops| - 1], cap), ops[|ops| - 1], cap)
  }

  /** Inclusion: on any trace, a smaller cache's list is a subsequence of a larger one's, and no list exceeds its capacity. */
  lemma {:induction false} RunIncluded<K(!new), V>(ops: seq<Op<K, V>>, capS: nat, capL: nat) returns (ks: iset<K>)
    requires capS <= capL
    ensures Included(Run(ops, capS), capS, Run(ops, capL), capL, ks)
    decreases |ops|
  {
    if ops == [] {
      ks := iset{};
    } else {
      var m := |ops| - 1;
      ks := RunIncluded(ops[..m], capS, capL);
      ks := StepIncluded(Run(ops[..m], capS), capS, Run(ops[..m], capL), capL, ks, ops[m]);
    }
  }

  /** What a smaller cache answers, a larger one answers too. */
  lemma HitInSmallIsHitInLarge<K(!new), V>(ops: seq<Op<K, V>>, capS: nat, capL: nat, k: K, now: nat)
    requires capS <= capL && Answer(Run(ops, capS), k, now).Some?
    ensures Answer(Run(ops, capL), k, now) == Answer(Run(ops, capS), k, now)
  {
    var ks := RunIncluded(ops, capS, capL);
    KeepFind(Run(ops, capL), ks, k);
  }

  /** The entries of a cache that never evicts. */
  function Reference<K(==), V>(ops: seq<Op<K, V>>): map<K, Entry<V>> {
    if ops == [] then map[]
    else
      var before := Reference(ops[..|ops| - 1]);
      match ops[|ops| - 1]
      case Get(k, now) => if k in before && IsExpired(before[k], now) then before - {k} else before
      case Put(k, value, version, now, ttl) => before[k := NewEntry(value, version, now, ttl)]
      case Invalidate(k) => before - {k}
  }

  /** Every line is what the last Put of its key stored, and no Invalidate came after it. */
  lemma {:induction false} LinesAreCurrent<K(!new), V>(ops: seq<Op<K, V>>, cap: nat)
    ensures forall x | x in Run(ops, cap) :: x.key in Reference(ops) && Reference(ops)[x.key] == x.entry
    decreases |ops|
  {
    if ops != [] {
      LinesAreCurrent(ops[..|ops| - 1], cap);
      var ks := RunIncluded(ops[..|ops| - 1], cap, cap);
      FoundIsOnly(Run(ops[..|ops| - 1], cap), ops[|ops| - 1].key);
    }
  }

  /** A cache of any capacity answers only with the current, unexpired value. */
  lemma AnswersAreCurrent<K(!new), V>(ops: seq<Op<K, V>>, cap: nat, k: K, now: nat)
    requires Answer(Run(ops, cap), k, now).Some?
    ensures k in Reference(ops) && !IsExpired(Reference(ops)[k], now)
    ensures Answer(Run(ops, cap), k, now) == Some(Reference(ops)[k].value)
  {
    LinesAreCurrent(ops, cap);
  }
}
