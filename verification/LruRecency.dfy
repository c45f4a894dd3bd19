/** The recency law of src/client/metadata_cache.cpp:113-233, stated on the trace of operations alone: which keys a cache
  * holds, in which order, and what it answers. */
module LruRecency {
  import opened Bytes
  import opened LruList

  // ---- the law ----

  /** Number of the last operation that used key `k`, or -1. */
  ghost function LastUse<K(!new), V>(ops: seq<Op<K, V>>, cap: nat, k: K): (i: int)
    ensures -1 <= i < |ops|
    decreases |ops|, 1
  {
    if ops == [] then -1
    else if Uses(ops, cap, k) then |ops| - 1
    else LastUse(ops[..|ops| - 1], cap, k)
  }

  /** The last operation uses `k`: a Put of it, or a Get of it that is answered. */
  ghost predicate Uses<K(!new), V>(ops: seq<Op<K, V>>, cap: nat, k: K)
    requires ops != []
    decreases |ops|, 0
  {
    match ops[|ops| - 1]
    case Put(key, _, _, _, _) => key == k
    case Get(key, now) => key == k && Answered(ops[..|ops| - 1], cap, k, now)
    case Invalidate(_) => false
  }

  /** The keys that were used later than operation `i` and not removed again, were there no eviction. */
  ghost function Newer<K(!new), V>(ops: seq<Op<K, V>>, cap: nat, i: int): set<K>
    decreases |ops|, 2
  {
    set k | k in Reference(ops) && LastUse(ops, cap, k) > i
  }

  /** At some time since its last use, `cap` keys were more recent than `k`. */
  ghost predicate Evicted<K(!new), V>(ops: seq<Op<K, V>>, cap: nat, k: K)
    decreases |ops|, 3
  {
    exists m | LastUse(ops, cap, k) < m <= |ops| :: |Newer(ops[..m], cap, LastUse(ops, cap, k))| >= cap
  }

  ghost predicate Answered<K(!new), V>(ops: seq<Op<K, V>>, cap: nat, k: K, now: nat)
    decreases |ops|, 4
  {
    k in Reference(ops) && !IsExpired(Reference(ops)[k], now) && !Evicted(ops, cap, k)
  }

  // ---- lists in order of use ----

  ghost predicate Current<K(!new), V>(l: seq<Line<K, V>>, ref: map<K, Entry<V>>) {
    forall x | x in l :: x.key in ref && ref[x.key] == x.entry
  }

  ghost predicate InOrder<K(!new), V>(l: seq<Line<K, V>>, use: K -> int) {
    forall i, j | 0 <= i < j < |l| :: use(l[i].key) > use(l[j].key)
  }

  ghost predicate HasNewer<K(!new), V>(l: seq<Line<K, V>>, ref: map<K, Entry<V>>, use: K -> int, i: nat, k: K) {
    i < |l| && k in ref && use(k) > use(l[i].key) ==> Find(l, k).Some?
  }

  /** Lines of `ref` with the later used ones in front; a key of `ref` used later than some line has a line too. */
  ghost predicate ByUse<K(!new), V>(l: seq<Line<K, V>>, ref: map<K, Entry<V>>, use: K -> int) {
    && Current(l, ref) && InOrder(l, use)
    && forall i, k {:trigger HasNewer(l, ref, use, i, k)} :: HasNewer(l, ref, use, i, k)
  }

  ghost function After<K(!new), V>(ref: map<K, Entry<V>>, use: K -> int, i: int): set<K> {
    set k | k in ref && use(k) > i
  }

  lemma InOrderUnique<K(!new), V>(l: seq<Line<K, V>>, use: K -> int)
    requires InOrder(l, use)
    ensures Unique(l)
  {
  }

  lemma FoundLine<K(!new), V>(l: seq<Line<K, V>>, k: K) returns (i: nat)
    requires Find(l, k).Some?
    ensures i < |l| && l[i] == Line(k, Find(l, k).value)
  {
    i :| 0 <= i < |l| && l[i] == Line(k, Find(l, k).value);
  }

  ghost function KeysOf<K(!new), V>(l: seq<Line<K, V>>): set<K> {
    set x | x in l :: x.key
  }

  lemma {:induction false} KeyCount<K(!new), V>(l: seq<Line<K, V>>)
    requires Unique(l)
    ensures |KeysOf(l)| == |l|
  {
    if l != [] {
      UniqueTail(l);
      KeyCount(l[1..]);
      assert l == [l[0]] + l[1..];
      assert KeysOf(l) == {l[0].key} + KeysOf(l[1..]);
    }
  }

  /** The keys used later than line `i` are those of the lines before it. */
  lemma AfterLine<K(!new), V>(l: seq<Line<K, V>>, ref: map<K, Entry<V>>, use: K -> int, i: nat)
    requires ByUse(l, ref, use) && i < |l|
    ensures |After(ref, use, use(l[i].key))| == i
  {
    var u := use(l[i].key);
    forall k | k in After(ref, use, u)
      ensures k in KeysOf(l[..i])
    {
      assert HasNewer(l, ref, use, i, k);
      var j := FoundLine(l, k);
      assert l[..i][j] == l[j];
    }
    forall k | k in KeysOf(l[..i])
      ensures k in After(ref, use, u)
    {
      var x :| x in l[..i] && x.key == k;
    }
    assert After(ref, use, u) == KeysOf(l[..i]);
    InOrderUnique(l, use);
    KeyCount(l[..i]);
  }

  lemma {:induction false} FindOther<K(!new), V>(l: seq<Line<K, V>>, k: K, other: K)
    requires other != k
    ensures Find(Remove(l, k), other) == Find(l, other)
  {
    if l != [] {
      FindOther(l[1..], k, other);
      FindPush(l[0], Remove(l[1..], k), other);
      assert [] + Remove(l[1..], k) == Remove(l[1..], k);
    }
  }

  /** The lines of a list without line `d` are lines of the list, in the same order. */
  ghost predicate LinesWithout<T>(l: seq<T>, d: nat, rest: seq<T>) {
    d < |l| && |rest| == |l| - 1 && forall j | 0 <= j < |rest| :: rest[j] == l[if j < d then j else j + 1]
  }

  lemma DropLine<T>(l: seq<T>, d: nat)
    requires d < |l|
    ensures LinesWithout(l, d, l[..d] + l[d + 1..])
  {
  }

  lemma RemoveLine<K(!new), V>(l: seq<Line<K, V>>, k: K) returns (d: nat)
    requires Unique(l) && Find(l, k).Some?
    ensures LinesWithout(l, d, Remove(l, k))
  {
    d := FoundLine(l, k);
    RemoveAt(l, d);
    DropLine(l, d);
  }

  lemma RemoveByUse<K(!new), V>(l: seq<Line<K, V>>, ref: map<K, Entry<V>>, use: K -> int, k: K)
    requires ByUse(l, ref, use)
    ensures ByUse(Remove(l, k), ref - {k}, use)
  {
    var rest := Remove(l, k);
    InOrderUnique(l, use);
    if Find(l, k).None? {
      RemoveAbsent(l, k);
      forall i, k'
        ensures HasNewer(rest, ref - {k}, use, i, k')
      {
        assert HasNewer(l, ref, use, i, k');
      }
    } else {
      var d := RemoveLine(l, k);
      RestInOrder(l, use, d, rest);
      forall i, k'
        ensures HasNewer(rest, ref - {k}, use, i, k')
      {
        if k' != k {
          FindOther(l, k, k');
          assert HasNewer(l, ref, use, if i < d then i else i + 1, k');
        }
      }
    }
  }

  lemma RestInOrder<K(!new), V>(l: seq<Line<K, V>>, use: K -> int, d: nat, rest: seq<Line<K, V>>)
    requires InOrder(l, use) && LinesWithout(l, d, rest)
    ensures InOrder(rest, use)
  {
  }

  /** `use'` is `use` but for key `k`, which was used now. */
  ghost predicate UsedNow<K(!new)>(use: K -> int, use': K -> int, k: K, now: int) {
    use'(k) == now && forall other :: use(other) < now && (other != k ==> use'(other) == use(other))
  }

  lemma PushByUse<K(!new), V>(x: Line<K, V>, l: seq<Line<K, V>>, ref: map<K, Entry<V>>, use: K -> int, use': K -> int, now: int)
    requires ByUse(l, ref, use) && Find(l, x.key).None? && UsedNow(use, use', x.key, now)
    ensures ByUse([x] + l, ref[x.key := x.entry], use')
  {
    var l', ref' := [x] + l, ref[x.key := x.entry];
    PushInOrder(x, l, use, use', now);
    forall i: nat, k
      ensures HasNewer(l', ref', use', i, k)
    {
      FindPush(x, l, k);
      if 0 < i < |l'| {
        assert l'[i] == l[i - 1] && l[i - 1] in l;
        assert HasNewer(l, ref, use, i - 1, k);
      }
    }
  }

  lemma PushInOrder<K(!new), V>(x: Line<K, V>, l: seq<Line<K, V>>, use: K -> int, use': K -> int, now: int)
    requires InOrder(l, use) && Find(l, x.key).None? && UsedNow(use, use', x.key, now)
    ensures InOrder([x] + l, use')
  {
    forall i | 0 <= i < |l|
      ensures l[i].key != x.key
    {
      assert l[i] in l;
    }
  }

  lemma TruncateByUse<K(!new), V>(l: seq<Line<K, V>>, ref: map<K, Entry<V>>, use: K -> int, cap: nat)
    requires ByUse(l, ref, use)
    ensures ByUse(Truncate(l, cap), ref, use)
  {
    var l' := Truncate(l, cap);
    forall i: nat, k
      ensures HasNewer(l', ref, use, i, k)
    {
      assert HasNewer(l, ref, use, i, k);
      if i < |l'| && k in ref && use(k) > use(l'[i].key) {
        var j := FoundLine(l, k);
        KeptLine(l, cap, j);
      }
    }
  }

  lemma KeptLine<K(!new), V>(l: seq<Line<K, V>>, cap: nat, i: nat)
    ensures i < |l| && i < cap ==> Find(Truncate(l, cap), l[i].key).Some?
  {
    if i < |l| && i < cap {
      assert Truncate(l, cap)[i] == l[i];
    }
  }

  /** What using `x.key` does to the list. */
  lemma UseByUse<K(!new), V>(x: Line<K, V>, l: seq<Line<K, V>>, ref: map<K, Entry<V>>, use: K -> int, use': K -> int, now: int)
    requires ByUse(l, ref, use) && UsedNow(use, use', x.key, now)
    ensures ByUse([x] + Remove(l, x.key), ref[x.key := x.entry], use')
  {
    RemoveByUse(l, ref, use, x.key);
    FindRemoved(l, x.key);
    PushByUse(x, Remove(l, x.key), ref - {x.key}, use, use', now);
    assert (ref - {x.key})[x.key := x.entry] == ref[x.key := x.entry];
  }

  /** Whom it evicts. */
  lemma UseEvicts<K(!new), V>(x: Line<K, V>, l: seq<Line<K, V>>, ref: map<K, Entry<V>>, use: K -> int, cap: nat, k: K)
    requires ByUse([x] + Remove(l, x.key), ref, use)
    ensures var l' := Truncate([x] + Remove(l, x.key), cap);
            if k == x.key then Find(l', k).Some? <==> cap > 0
            else
              && (Find(l', k).Some? ==> Find(l, k).Some?)
              && (Find(l, k).Some? && Find(l', k).None? ==> |After(ref, use, use(k))| >= cap)
  {
    var pushed := [x] + Remove(l, x.key);
    if k == x.key {
      KeptLine(pushed, cap, 0);
    } else {
      FindOther(l, x.key, k);
      FindPush(x, Remove(l, x.key), k);
      EvictedLine(pushed, ref, use, cap, k);
    }
  }

  lemma EvictedLine<K(!new), V>(l: seq<Line<K, V>>, ref: map<K, Entry<V>>, use: K -> int, cap: nat, k: K)
    requires ByUse(l, ref, use)
    ensures Find(Truncate(l, cap), k).Some? ==> Find(l, k).Some?
    ensures Find(l, k).Some? && Find(Truncate(l, cap), k).None? ==> |After(ref, use, use(k))| >= cap
  {
    if Find(Truncate(l, cap), k).Some? {
      var i := FoundLine(Truncate(l, cap), k);
      assert l[i] in l;
    } else if Find(l, k).Some? {
      var i := FoundLine(l, k);
      KeptLine(l, cap, i);
      AfterLine(l, ref, use, i);
    }
  }

  // ---- whole traces ----

  ghost function Use<K(!new), V>(ops: seq<Op<K, V>>, cap: nat): K -> int {
    k => LastUse(ops, cap, k)
  }

  lemma UseAfter<K(!new), V>(ops: seq<Op<K, V>>, cap: nat, i: int)
    ensures After(Reference(ops), Use(ops, cap), i) == Newer(ops, cap, i)
  {
  }

  /** What the last operation changes in Evicted. */
  lemma EvictedStep<K(!new), V>(ops: seq<Op<K, V>>, cap: nat, k: K)
    requires ops != []
    ensures Evicted(ops, cap, k) <==>
            if Uses(ops, cap, k) then cap == 0
            else Evicted(ops[..|ops| - 1], cap, k) || |Newer(ops, cap, LastUse(ops, cap, k))| >= cap
  {
    var n, u := |ops|, LastUse(ops, cap, k);
    assert ops[..n] == ops;
    if Uses(ops, cap, k) {
      assert Newer(ops, cap, n - 1) == {};
    } else {
      EvictedBefore(ops, cap, k, u);
    }
  }

  lemma EvictedBefore<K(!new), V>(ops: seq<Op<K, V>>, cap: nat, k: K, u: int)
    requires ops != [] && u == LastUse(ops[..|ops| - 1], cap, k)
    ensures Evicted(ops[..|ops| - 1], cap, k) <==> exists m | u < m < |ops| :: |Newer(ops[..m], cap, u)| >= cap
  {
    var front := ops[..|ops| - 1];
    forall m | 0 <= m < |ops|
      ensures front[..m] == ops[..m]
    {
    }
    if Evicted(front, cap, k) {
      var m :| u < m <= |front| && |Newer(front[..m], cap, u)| >= cap;
      assert |Newer(ops[..m], cap, u)| >= cap;
    }
    if m :| u < m < |ops| && |Newer(ops[..m], cap, u)| >= cap {
      assert |Newer(front[..m], cap, u)| >= cap;
    }
  }

  /** A key still referred to has a line exactly if it was not evicted. */
  ghost predicate HeldUnlessEvicted<K(!new), V>(ops: seq<Op<K, V>>, cap: nat, k: K) {
    k in Reference(ops) ==> (Find(Run(ops, cap), k).Some? <==> !Evicted(ops, cap, k))
  }

  ghost predicate Lawful<K(!new), V>(ops: seq<Op<K, V>>, cap: nat) {
    && |Run(ops, cap)| <= cap && ByUse(Run(ops, cap), Reference(ops), Use(ops, cap))
    && forall k :: HeldUnlessEvicted(ops, cap, k)
  }

  lemma SameUse<K(!new), V>(l: seq<Line<K, V>>, ref: map<K, Entry<V>>, use: K -> int, use': K -> int)
    requires ByUse(l, ref, use) && forall k :: use'(k) == use(k)
    ensures ByUse(l, ref, use')
  {
    forall i: nat, k
      ensures HasNewer(l, ref, use', i, k)
    {
      assert HasNewer(l, ref, use, i, k);
    }
  }

  /** A line found means that fewer than |l| keys are newer. */
  lemma FoundIsRecent<K(!new), V>(l: seq<Line<K, V>>, ref: map<K, Entry<V>>, use: K -> int, k: K)
    requires ByUse(l, ref, use) && Find(l, k).Some?
    ensures |After(ref, use, use(k))| < |l|
  {
    var i := FoundLine(l, k);
    AfterLine(l, ref, use, i);
  }

  lemma UseIs<K(!new), V>(ops: seq<Op<K, V>>, cap: nat, k: K)
    ensures Use(ops, cap)(k) == LastUse(ops, cap, k)
  {
  }

  lemma UsesNone<K(!new), V>(ops: seq<Op<K, V>>, cap: nat)
    requires ops != [] && forall k :: !Uses(ops, cap, k)
    ensures forall k :: Use(ops, cap)(k) == Use(ops[..|ops| - 1], cap)(k)
  {
    forall k
      ensures Use(ops, cap)(k) == Use(ops[..|ops| - 1], cap)(k)
    {
      UseIs(ops, cap, k);
      UseIs(ops[..|ops| - 1], cap, k);
    }
  }

  lemma UsesNow<K(!new), V>(ops: seq<Op<K, V>>, cap: nat, k: K)
    requires ops != [] && Uses(ops, cap, k)
    ensures UsedNow(Use(ops[..|ops| - 1], cap), Use(ops, cap), k, |ops| - 1)
  {
    var front := ops[..|ops| - 1];
    var use, use' := Use(front, cap), Use(ops, cap);
    UseIs(ops, cap, k);
    forall other
      ensures use(other) < |ops| - 1 && (other != k ==> use'(other) == use(other))
    {
      UseIs(front, cap, other);
      UseIs(ops, cap, other);
      assert other != k ==> !Uses(ops, cap, other);
    }
  }

  /** Whatever the last operation was, a key that has a line is not evicted. */
  lemma HeldIsNotEvicted<K(!new), V>(ops: seq<Op<K, V>>, cap: nat, k: K)
    requires ops != [] && |Run(ops, cap)| <= cap && ByUse(Run(ops, cap), Reference(ops), Use(ops, cap))
    requires Find(Run(ops, cap), k).Some? && (!Uses(ops, cap, k) ==> !Evicted(ops[..|ops| - 1], cap, k))
    ensures !Evicted(ops, cap, k)
  {
    EvictedStep(ops, cap, k);
    UseAfter(ops, cap, LastUse(ops, cap, k));
    UseIs(ops, cap, k);
    FoundIsRecent(Run(ops, cap), Reference(ops), Use(ops, cap), k);
  }

  lemma HeldAfterUse<K(!new), V>(ops: seq<Op<K, V>>, cap: nat, x: Line<K, V>, k: K)
    requires ops != [] && Uses(ops, cap, x.key) && HeldUnlessEvicted(ops[..|ops| - 1], cap, k)
    requires Run(ops, cap) == Truncate([x] + Remove(Run(ops[..|ops| - 1], cap), x.key), cap)
    requires Reference(ops) == Reference(ops[..|ops| - 1])[x.key := x.entry]
    requires |Run(ops, cap)| <= cap && ByUse(Run(ops, cap), Reference(ops), Use(ops, cap))
    requires ByUse([x] + Remove(Run(ops[..|ops| - 1], cap), x.key), Reference(ops), Use(ops, cap))
    ensures HeldUnlessEvicted(ops, cap, k)
  {
    assert Uses(ops, cap, k) <==> k == x.key;
    UseEvicts(x, Run(ops[..|ops| - 1], cap), Reference(ops), Use(ops, cap), cap, k);
    if Find(Run(ops, cap), k).Some? {
      if k in Reference(ops) {
        HeldIsNotEvicted(ops, cap, k);
      }
    } else {
      EvictedStep(ops, cap, k);
      UseAfter(ops, cap, LastUse(ops, cap, k));
      UseIs(ops, cap, k);
    }
  }

  lemma HeldAfterNone<K(!new), V>(ops: seq<Op<K, V>>, cap: nat, k: K)
    requires ops != [] && !Uses(ops, cap, k) && HeldUnlessEvicted(ops[..|ops| - 1], cap, k)
    requires |Run(ops, cap)| <= cap && ByUse(Run(ops, cap), Reference(ops), Use(ops, cap))
    requires k in Reference(ops) ==> k in Reference(ops[..|ops| - 1]) && Find(Run(ops, cap), k) == Find(Run(ops[..|ops| - 1], cap), k)
    ensures HeldUnlessEvicted(ops, cap, k)
  {
    if k in Reference(ops) {
      if Find(Run(ops, cap), k).Some? {
        HeldIsNotEvicted(ops, cap, k);
      } else {
        EvictedStep(ops, cap, k);
      }
    }
  }

  /** The last operation uses key `k` and puts line `x` in front. */
  lemma StepUses<K(!new), V>(ops: seq<Op<K, V>>, cap: nat, x: Line<K, V>)
    requires ops != [] && Uses(ops, cap, x.key) && Lawful(ops[..|ops| - 1], cap)
    requires Run(ops, cap) == Truncate([x] + Remove(Run(ops[..|ops| - 1], cap), x.key), cap)
    requires Reference(ops) == Reference(ops[..|ops| - 1])[x.key := x.entry]
    ensures Lawful(ops, cap)
  {
    var front := ops[..|ops| - 1];
    var l, ref, use := Run(front, cap), Reference(ops), Use(ops, cap);
    UsesNow(ops, cap, x.key);
    UseByUse(x, l, Reference(front), Use(front, cap), use, |ops| - 1);
    TruncateByUse([x] + Remove(l, x.key), ref, use, cap);
    forall k
      ensures HeldUnlessEvicted(ops, cap, k)
    {
      assert HeldUnlessEvicted(front, cap, k);
      HeldAfterUse(ops, cap, x, k);
    }
  }

  /** The last operation uses no key; it takes line and reference of at most one key away. */
  lemma StepUsesNone<K(!new), V>(ops: seq<Op<K, V>>, cap: nat, gone: set<K>)
    requires ops != [] && Lawful(ops[..|ops| - 1], cap)
    requires forall k :: !Uses(ops, cap, k)
    requires |Run(ops, cap)| <= cap && Reference(ops) == Reference(ops[..|ops| - 1]) - gone
    requires ByUse(Run(ops, cap), Reference(ops), Use(ops[..|ops| - 1], cap))
    requires forall k | k !in gone :: Find(Run(ops, cap), k) == Find(Run(ops[..|ops| - 1], cap), k)
    ensures Lawful(ops, cap)
  {
    var front := ops[..|ops| - 1];
    UsesNone(ops, cap);
    SameUse(Run(ops, cap), Reference(ops), Use(front, cap), Use(ops, cap));
    forall k
      ensures HeldUnlessEvicted(ops, cap, k)
    {
      assert HeldUnlessEvicted(front, cap, k);
      HeldAfterNone(ops, cap, k);
    }
  }

  lemma StepRemoves<K(!new), V>(ops: seq<Op<K, V>>, cap: nat, key: K)
    requires ops != [] && Lawful(ops[..|ops| - 1], cap)
    requires forall k :: !Uses(ops, cap, k)
    requires Run(ops, cap) == Remove(Run(ops[..|ops| - 1], cap), key)
    requires Reference(ops) == Reference(ops[..|ops| - 1]) - {key}
    ensures Lawful(ops, cap)
  {
    var front := ops[..|ops| - 1];
    RemoveByUse(Run(front, cap), Reference(front), Use(front, cap), key);
    forall k | k !in {key}
      ensures Find(Run(ops, cap), k) == Find(Run(front, cap), k)
    {
      FindOther(Run(front, cap), key, k);
    }
    StepUsesNone(ops, cap, {key});
  }

  lemma GetUsesNone<K(!new), V>(ops: seq<Op<K, V>>, cap: nat, key: K, now: nat)
    requires ops != [] && ops[|ops| - 1] == Get(key, now) && !Answered(ops[..|ops| - 1], cap, key, now)
    ensures forall k :: !Uses(ops, cap, k)
  {
  }

  lemma StepGetExpired<K(!new), V>(ops: seq<Op<K, V>>, cap: nat, key: K, now: nat)
    requires ops != [] && ops[|ops| - 1] == Get(key, now) && Lawful(ops[..|ops| - 1], cap)
    requires key !in Reference(ops[..|ops| - 1]) || IsExpired(Reference(ops[..|ops| - 1])[key], now)
    ensures Lawful(ops, cap)
  {
    var l, ref := Run(ops[..|ops| - 1], cap), Reference(ops[..|ops| - 1]);
    GetUsesNone(ops, cap, key, now);
    if Find(l, key).None? {
      RemoveAbsent(l, key);
    }
    assert key !in ref ==> ref - {key} == ref;
    StepRemoves(ops, cap, key);
  }

  lemma StepGetHit<K(!new), V>(ops: seq<Op<K, V>>, cap: nat, key: K, now: nat)
    requires ops != [] && ops[|ops| - 1] == Get(key, now) && Lawful(ops[..|ops| - 1], cap)
    requires Answered(ops[..|ops| - 1], cap, key, now) && Find(Run(ops[..|ops| - 1], cap), key).Some?
    ensures Lawful(ops, cap)
  {
    var l, ref := Run(ops[..|ops| - 1], cap), Reference(ops[..|ops| - 1]);
    InOrderUnique(l, Use(ops[..|ops| - 1], cap));
    RemoveOne(l, key);
    assert ref[key := ref[key]] == ref;
    StepUses(ops, cap, Line(key, ref[key]));
  }

  lemma StepGet<K(!new), V>(ops: seq<Op<K, V>>, cap: nat, key: K, now: nat)
    requires ops != [] && ops[|ops| - 1] == Get(key, now) && Lawful(ops[..|ops| - 1], cap)
    ensures Lawful(ops, cap)
  {
    var front := ops[..|ops| - 1];
    assert HeldUnlessEvicted(front, cap, key);
    if key !in Reference(front) || IsExpired(Reference(front)[key], now) {
      StepGetExpired(ops, cap, key, now);
    } else if Evicted(front, cap, key) {
      GetUsesNone(ops, cap, key, now);
      StepUsesNone(ops, cap, {});
    } else {
      StepGetHit(ops, cap, key, now);
    }
  }

  lemma StepPut<K(!new), V>(ops: seq<Op<K, V>>, cap: nat, key: K, value: V, version: nat, now: nat, ttl: nat)
    requires ops != [] && ops[|ops| - 1] == Put(key, value, version, now, ttl) && Lawful(ops[..|ops| - 1], cap)
    ensures Lawful(ops, cap)
  {
    var l := Run(ops[..|ops| - 1], cap);
    InOrderUnique(l, Use(ops[..|ops| - 1], cap));
    RemoveOne(l, key);
    if Find(l, key).None? {
      RemoveAbsent(l, key);
    }
    StepUses(ops, cap, Line(key, NewEntry(value, version, now, ttl)));
  }

  /** On every trace: the list is in order of last use, and the cache holds exactly the keys that were not evicted. */
  lemma {:induction false} RunIsLawful<K(!new), V>(ops: seq<Op<K, V>>, cap: nat)
    ensures Lawful(ops, cap)
    decreases |ops|
  {
    if ops != [] {
      RunIsLawful(ops[..|ops| - 1], cap);
      match ops[|ops| - 1] {
        case Get(key, now) => StepGet(ops, cap, key, now);
        case Put(key, value, version, now, ttl) => StepPut(ops, cap, key, value, version, now, ttl);
        case Invalidate(key) => StepRemoves(ops, cap, key);
      }
    }
  }

  /** A Get is answered exactly by the law: with the current value, unless that is expired or was evicted. */
  lemma AnswersExactly<K(!new), V>(ops: seq<Op<K, V>>, cap: nat, k: K, now: nat)
    ensures Answer(Run(ops, cap), k, now) == if Answered(ops, cap, k, now) then Some(Reference(ops)[k].value) else None
  {
    RunIsLawful(ops, cap);
    assert HeldUnlessEvicted(ops, cap, k);
  }

  /** The cache's list, exactly: which keys have a line and with what entry, and the later used ones in front. */
  lemma ListExactly<K(!new), V>(ops: seq<Op<K, V>>, cap: nat, k: K, i: nat, j: nat)
    ensures Find(Run(ops, cap), k) == if k in Reference(ops) && !Evicted(ops, cap, k) then Some(Reference(ops)[k]) else None
    ensures i < j < |Run(ops, cap)| ==> LastUse(ops, cap, Run(ops, cap)[i].key) > LastUse(ops, cap, Run(ops, cap)[j].key)
  {
    RunIsLawful(ops, cap);
    assert HeldUnlessEvicted(ops, cap, k);
    if i < j < |Run(ops, cap)| {
      UseIs(ops, cap, Run(ops, cap)[i].key);
      UseIs(ops, cap, Run(ops, cap)[j].key);
    }
  }

  // ---- what a caller may rely on ----

  /** The other keys that are put or asked for in `rest`. */
  ghost function Others<K(!new), V>(rest: seq<Op<K, V>>, k: K): set<K> {
    set op | op in rest && !op.Invalidate? && op.key != k :: op.key
  }

  /** `rest` does no more to key `k` than to ask for it before its entry expires. */
  ghost predicate OnlyAsks<K(!new), V>(rest: seq<Op<K, V>>, k: K, e: Entry<V>) {
    forall op | op in rest && op.key == k :: op.Get? && !IsExpired(e, op.now)
  }

  lemma JoinFront<T>(a: seq<T>, b: seq<T>)
    requires b != []
    ensures (a + b)[..|a + b| - 1] == a + b[..|b| - 1] && (a + b)[|a + b| - 1] == b[|b| - 1]
    ensures b[|b| - 1] in b && forall x | x in b[..|b| - 1] :: x in b
  {
  }

  lemma {:induction false} ReferenceStays<K(!new), V>(ops: seq<Op<K, V>>, rest: seq<Op<K, V>>, k: K)
    requires k in Reference(ops) && OnlyAsks(rest, k, Reference(ops)[k])
    ensures k in Reference(ops + rest) && Reference(ops + rest)[k] == Reference(ops)[k]
    decreases |rest|
  {
    if rest == [] {
      assert ops + rest == ops;
    } else {
      JoinFront(ops, rest);
      ReferenceStays(ops, rest[..|rest| - 1], k);
    }
  }

  /** A use in `rest` is by an operation of `rest`, and later than all of `ops`. */
  lemma {:induction false} LastUseIn<K(!new), V>(ops: seq<Op<K, V>>, rest: seq<Op<K, V>>, cap: nat, k: K)
    ensures LastUse(ops + rest, cap, k) >= LastUse(ops, cap, k)
    ensures LastUse(ops + rest, cap, k) >= |ops| ==> exists op | op in rest :: !op.Invalidate? && op.key == k
    decreases |rest|
  {
    if rest == [] {
      assert ops + rest == ops;
    } else {
      JoinFront(ops, rest);
      LastUseIn(ops, rest[..|rest| - 1], cap, k);
      assert Uses(ops + rest, cap, k) ==> rest[|rest| - 1].key == k && !rest[|rest| - 1].Invalidate?;
    }
  }

  lemma NewerAreOthers<K(!new), V>(ops: seq<Op<K, V>>, rest: seq<Op<K, V>>, cap: nat, k: K, m: nat)
    requires ops != [] && Uses(ops, cap, k) && LastUse(ops + rest, cap, k) < m <= |ops + rest|
    ensures |Newer((ops + rest)[..m], cap, LastUse(ops + rest, cap, k))| <= |Others(rest, k)|
  {
    LastUseIn(ops, rest, cap, k);
    var u, some := LastUse(ops + rest, cap, k), rest[..m - |ops|];
    var tail := rest[m - |ops|..];
    assert (ops + rest)[..m] == ops + some && some + tail == rest && ops + rest == ops + some + tail;
    LastUseIn(ops + some, tail, cap, k);
    forall other | other in Newer(ops + some, cap, u)
      ensures other in Others(rest, k)
    {
      LastUseIn(ops, some, cap, other);
      var op :| op in some && !op.Invalidate? && op.key == other;
      assert op in rest;
    }
    Smaller(Newer(ops + some, cap, u), Others(rest, k));
  }

  lemma Smaller<T>(a: set<T>, b: set<T>)
    requires a <= b
    ensures |a| <= |b|
  {
    assert b == a + (b - a);
  }

  /** A key just used stays in the cache while fewer than `cap` other keys are put or asked for. */
  lemma RecentlyUsedStays<K(!new), V>(ops: seq<Op<K, V>>, rest: seq<Op<K, V>>, cap: nat, k: K)
    requires ops != [] && Uses(ops, cap, k) && k in Reference(ops)
    requires OnlyAsks(rest, k, Reference(ops)[k]) && |Others(rest, k)| < cap
    ensures Find(Run(ops + rest, cap), k) == Some(Reference(ops)[k])
  {
    ReferenceStays(ops, rest, k);
    forall m | LastUse(ops + rest, cap, k) < m <= |ops + rest|
      ensures |Newer((ops + rest)[..m], cap, LastUse(ops + rest, cap, k))| < cap
    {
      NewerAreOthers(ops, rest, cap, k, m);
    }
    ListExactly(ops + rest, cap, k, 0, 0);
  }

  /** So a value put is answered until its time is over, whatever else fewer than `cap` other keys are used for. */
  lemma PutIsAnswered<K(!new), V>(before: seq<Op<K, V>>, k: K, value: V, version: nat, time: nat, ttl: nat, rest: seq<Op<K, V>>,
                                  cap: nat, now: nat)
    requires 0 < time + ttl * 1_000_000_000 < TWO_64
    requires forall op | op in rest && op.key == k :: op.Get? && op.now <= time + ttl * 1_000_000_000
    requires |Others(rest, k)| < cap
    ensures Answer(Run(before + [Put(k, value, version, time, ttl)] + rest, cap), k, now) ==
            if now <= time + ttl * 1_000_000_000 then Some(value) else None
  {
    var ops := before + [Put(k, value, version, time, ttl)];
    JoinFront(before, [Put(k, value, version, time, ttl)]);
    assert Reference(ops)[k] == NewEntry(value, version, time, ttl);
    assert Reference(ops)[k].expireTime == time + ttl * 1_000_000_000;
    RecentlyUsedStays(ops, rest, cap, k);
  }

  /** And a Get that was answered is answered again. */
  lemma HitIsRepeated<K(!new), V>(before: seq<Op<K, V>>, k: K, time: nat, rest: seq<Op<K, V>>, cap: nat, now: nat)
    requires Answer(Run(before, cap), k, time).Some?
    requires OnlyAsks(rest + [Get(k, now)], k, Find(Run(before, cap), k).value) && |Others(rest, k)| < cap
    ensures Answer(Run(before + [Get(k, time)] + rest, cap), k, now) == Answer(Run(before, cap), k, time)
  {
    var get: Op<K, V> := Get(k, time);
    var ops, last := before + [get], rest + [Get(k, now)];
    JoinFront(before, [get]);
    AnswersExactly(before, cap, k, time);
    ListExactly(before, cap, k, 0, 0);
    assert last[|rest|] in last;
    assert forall op | op in rest :: op in last;
    RecentlyUsedStays(ops, rest, cap, k);
  }
}
