/** src/common/id_generator.cpp: 41 bits of milliseconds, 10 bits of node, 13 bits of sequence. */
module IdGenerator {
  import opened Bytes

  const TWO_13: nat := 0x2000
  const TWO_23: nat := 0x80_0000
  const TWO_41: nat := 0x200_0000_0000

  datatype Gen = Gen(node: nat, last: nat, sequence: nat)

  /** The three fields side by side; as they do not overlap, the source's OR is a sum (see FieldsDoNotOverlap). */
  function Pack(now: nat, node: nat, seqNo: nat): nat {
    now % TWO_41 * TWO_23 + node * TWO_13 + seqNo
  }

  lemma FieldsDoNotOverlap(now: bv64, node: bv64, seqNo: bv64)
    requires node <= 0x3FF && seqNo <= 0x1FFF
    ensures ((now & 0x1FF_FFFF_FFFF) << 23) | (node << 13) | seqNo == ((now & 0x1FF_FFFF_FFFF) << 23) + (node << 13) + seqNo
  {
  }

  function FetchAdd(sequence: nat): nat {
    (sequence + 1) % TWO_64
  }

  /** The wait loop: the position of the first reading from `i` on that is not `last`. */
  function Wait(clock: seq<nat>, i: nat, last: nat): (j: nat)
    ensures j >= i
    ensures forall k | i <= k < j && k < |clock| :: clock[k] == last
    ensures j < |clock| ==> clock[j] != last
    decreases |clock| - i
  {
    if i < |clock| && clock[i] == last then Wait(clock, i + 1, last) else i
  }

  /** The 13-bit counter was at 0 when a call found the clock unchanged. */
  predicate Overflows(g: Gen, now: nat) {
    now == g.last && g.sequence % TWO_13 == 0
  }

  /** The reading the id is made from: after a wait, the one that follows the first that differs. */
  function Reading(g: Gen, clock: seq<nat>): nat
    requires clock != []
  {
    if Overflows(g, clock[0]) && Wait(clock, 1, g.last) + 1 < |clock| then clock[Wait(clock, 1, g.last) + 1] else clock[0]
  }

  /** The counter when the id's number is taken: a call that finds the clock unchanged has used up one number before. */
  function Counter(g: Gen, now: nat): nat {
    if now == g.last then FetchAdd(g.sequence) else 0
  }

  function IdFrom(g: Gen, clock: seq<nat>): nat
    requires clock != []
  {
    Pack(Reading(g, clock), g.node, Counter(g, clock[0]) % TWO_13)
  }

  function After(g: Gen, clock: seq<nat>): Gen
    requires clock != []
  {
    g.(last := Reading(g, clock), sequence := FetchAdd(Counter(g, clock[0])))
  }

  class IdGenerator {
    const nodeId: nat
    var sequence: nat
    var lastTimestampMs: nat

    ghost function Abs(): Gen
      reads this
    {
      Gen(nodeId, lastTimestampMs, sequence)
    }

    constructor (nodeId: nat)
      ensures Abs() == Gen(nodeId % 1024, 0, 0)
    {
      this.nodeId := nodeId % 1024;
      sequence, lastTimestampMs := 0, 0;
    }

    /** NextId, src/common/id_generator.cpp:19-46; `clock` are the readings the call would take, and a wait must end. */
    method NextId(clock: seq<nat>) returns (id: nat)
      requires clock != [] && (Overflows(Abs(), clock[0]) ==> Wait(clock, 1, lastTimestampMs) + 1 < |clock|)
      modifies this
      ensures id == IdFrom(old(Abs()), clock) && Abs() == After(old(Abs()), clock)
    {
      var now := clock[0];
      if now == lastTimestampMs {
        var seqNo := sequence % TWO_13;
        sequence := FetchAdd(sequence);
        if seqNo == 0 {
          var i := 1;
          while clock[i] == lastTimestampMs
            invariant 1 <= i < |clock| && Wait(clock, i, lastTimestampMs) == Wait(clock, 1, lastTimestampMs)
            decreases |clock| - i
          {
            i := i + 1;
          }
          now := clock[i + 1];
        }
      } else {
        sequence := 0;
      }
      lastTimestampMs := now;
      var seqNo := sequence % TWO_13;
      sequence := FetchAdd(sequence);
      id := Pack(now, nodeId, seqNo);
    }
  }

  // ---- runs ----

  /** The generator before the call number `i`, when the calls read `times`. */
  function Before(node: nat, times: seq<nat>, i: nat): Gen
    requires i <= |times|
  {
    if i == 0 then Gen(node, 0, 0) else After(Before(node, times, i - 1), [times[i - 1]])
  }

  function IdOf(node: nat, times: seq<nat>, i: nat): nat
    requires i < |times|
  {
    IdFrom(Before(node, times, i), [times[i]])
  }

  /** Which call of its millisecond call number `i` is, counting from 1. */
  function Nth(times: seq<nat>, i: nat): (n: nat)
    requires i < |times|
    ensures 1 <= n <= i + 1
  {
    if i > 0 && times[i] == times[i - 1] then Nth(times, i - 1) + 1 else 1
  }

  /** Readings of a clock that may go back. */
  predicate Readings(times: seq<nat>) {
    forall i | 0 <= i < |times| :: times[i] > 0
  }

  predicate Clock(times: seq<nat>) {
    && (forall i | 0 <= i < |times| :: 0 < times[i] < TWO_41)
    && (forall i, j | 0 <= i < j < |times| :: times[i] <= times[j])
  }

  /** After the n-th call of a millisecond the counter is 2n - 1: each call but the first takes two numbers. */
  lemma {:induction false} CounterAfter(node: nat, times: seq<nat>, i: nat)
    requires Readings(times) && i < |times|
    ensures var g := Before(node, times, i + 1);
            g.node == node && g.last == times[i] && g.sequence == (2 * Nth(times, i) - 1) % TWO_64
  {
    if i > 0 {
      CounterAfter(node, times, i - 1);
      OddIsNotZero(Nth(times, i - 1));
    }
  }

  lemma OddIsNotZero(n: nat)
    requires n > 0
    ensures (2 * n - 1) % TWO_64 % TWO_13 != 0
    ensures FetchAdd((2 * n - 1) % TWO_64) == 2 * n % TWO_64
    ensures FetchAdd(2 * n % TWO_64) == (2 * n + 1) % TWO_64
  {
  }

  /** The wait for the next millisecond never happens: the counter is odd whenever a call tests it. */
  lemma NeverWaits(node: nat, times: seq<nat>, i: nat)
    requires Readings(times) && i < |times|
    ensures !Overflows(Before(node, times, i), times[i])
  {
    if i > 0 {
      CounterAfter(node, times, i - 1);
      OddIsNotZero(Nth(times, i - 1));
    }
  }

  lemma CounterIs(node: nat, times: seq<nat>, i: nat)
    requires Readings(times) && i < |times|
    ensures Before(node, times, i).node == node
    ensures Counter(Before(node, times, i), times[i]) == 2 * (Nth(times, i) - 1) % TWO_64
  {
    if i > 0 {
      CounterAfter(node, times, i - 1);
      OddIsNotZero(Nth(times, i - 1));
    }
  }

  /** The sequence number of the n-th id of a millisecond. */
  function SequenceOf(n: nat): (seqNo: nat)
    requires n > 0
    ensures seqNo < TWO_13
  {
    2 * (n - 1) % TWO_13
  }

  lemma LowBits(n: nat)
    requires n > 0
    ensures 2 * (n - 1) % TWO_64 % TWO_13 == SequenceOf(n)
  {
  }

  lemma SequenceRepeats(n: nat)
    requires n > 4096
    ensures SequenceOf(n) == SequenceOf(n - 4096)
  {
  }

  lemma SequenceGrows(n: nat)
    requires 0 < n < 4096
    ensures SequenceOf(n) < SequenceOf(n + 1)
  {
  }

  lemma IdWithoutWait(g: Gen, now: nat)
    requires !Overflows(g, now)
    ensures IdFrom(g, [now]) == Pack(now, g.node, Counter(g, now) % TWO_13)
  {
  }

  /** A call that finds the counter at 0 in the millisecond of the last call takes the reading after the first that differs. */
  lemma IdAfterWait(g: Gen, clock: seq<nat>, j: nat)
    requires 1 <= j && j + 1 < |clock| && clock[0] == g.last && g.sequence % TWO_13 == 0
    requires clock[j] != g.last && forall k | 1 <= k < j :: clock[k] == g.last
    ensures IdFrom(g, clock) == Pack(clock[j + 1], g.node, 1)
    ensures After(g, clock) == Gen(g.node, clock[j + 1], (g.sequence + 2) % TWO_64)
  {
    var w := Wait(clock, 1, g.last);
    assert w == j;
    TwoFurther(g.sequence);
  }

  lemma TwoFurther(n: nat)
    ensures FetchAdd(FetchAdd(n)) == (n + 2) % TWO_64
    ensures n % TWO_13 == 0 ==> FetchAdd(n) % TWO_13 == 1
  {
    assert TWO_64 % TWO_13 == 0;
  }

  lemma IdFromCounter(g: Gen, now: nat, n: nat)
    requires n > 0 && !Overflows(g, now) && Counter(g, now) == 2 * (n - 1) % TWO_64
    ensures IdFrom(g, [now]) == Pack(now, g.node, SequenceOf(n))
  {
    IdWithoutWait(g, now);
    LowBits(n);
  }

  /** The n-th id of a millisecond has sequence number 2(n - 1) modulo 2^13. */
  lemma IdIs(node: nat, times: seq<nat>, i: nat)
    requires Readings(times) && i < |times|
    ensures IdOf(node, times, i) == Pack(times[i], node, SequenceOf(Nth(times, i)))
  {
    var g := Before(node, times, i);
    NeverWaits(node, times, i);
    CounterIs(node, times, i);
    IdFromCounter(g, times[i], Nth(times, i));
  }

  lemma SameSequence(n: nat, m: nat)
    requires n > 0 && m > 0
    ensures SequenceOf(n) == SequenceOf(m) <==> n % 4096 == m % 4096
  {
    HalfSequence(n);
    HalfSequence(m);
    PreviousModulo(n, m);
  }

  lemma HalfSequence(n: nat)
    requires n > 0
    ensures SequenceOf(n) == 2 * ((n - 1) % 4096)
  {
  }

  lemma PreviousModulo(n: nat, m: nat)
    requires n > 0 && m > 0
    ensures (n - 1) % 4096 == (m - 1) % 4096 <==> n % 4096 == m % 4096
  {
  }

  lemma SamePack(t1: nat, t2: nat, node: nat, s1: nat, s2: nat)
    requires node < 1024 && s1 < TWO_13 && s2 < TWO_13
    ensures Pack(t1, node, s1) == Pack(t2, node, s2) <==> t1 % TWO_41 == t2 % TWO_41 && s1 == s2
  {
    var a, b := t1 % TWO_41, t2 % TWO_41;
    if Pack(t1, node, s1) == Pack(t2, node, s2) {
      FieldsDecode(a, node, s1);
      FieldsDecode(b, node, s2);
      SmallModulo(a, TWO_41);
      SmallModulo(b, TWO_41);
    }
  }

  lemma SmallModulo(a: nat, m: nat)
    requires a < m
    ensures a % m == a
  {
  }

  /** Two ids of one generator are equal exactly if their calls read the same millisecond, modulo 2^41, and their numbers within
    * an unbroken row of such readings agree modulo 4096; the clock may go back. */
  lemma SameIdExactly(node: nat, times: seq<nat>, i: nat, j: nat)
    requires Readings(times) && node < 1024 && i < |times| && j < |times|
    ensures IdOf(node, times, i) == IdOf(node, times, j) <==>
            times[i] % TWO_41 == times[j] % TWO_41 && Nth(times, i) % 4096 == Nth(times, j) % 4096
  {
    IdIs(node, times, i);
    IdIs(node, times, j);
    SamePack(times[i], times[j], node, SequenceOf(Nth(times, i)), SequenceOf(Nth(times, j)));
    SameSequence(Nth(times, i), Nth(times, j));
  }

  /** So a clock that goes back and comes again to a millisecond repeats its ids. */
  lemma RepeatsAfterClockGoesBack(node: nat, t: nat)
    requires t > 1 && node < 1024
    ensures IdOf(node, [t, t - 1, t], 0) == IdOf(node, [t, t - 1, t], 2)
  {
    SameIdExactly(node, [t, t - 1, t], 0, 2);
  }

  /** The fields read back. */
  lemma FieldsDecode(now: nat, node: nat, seqNo: nat)
    requires now < TWO_41 && node < 1024 && seqNo < TWO_13
    ensures var id := Pack(now, node, seqNo);
            id < TWO_64 && id / TWO_23 == now && id / TWO_13 % 1024 == node && id % TWO_13 == seqNo
  {
    Quotient23(now, node * TWO_13 + seqNo);
    Quotient13(now * 1024 + node, seqNo);
    Quotient10(now, node);
  }

  lemma Quotient23(q: nat, r: nat)
    requires r < TWO_23
    ensures (q * TWO_23 + r) / TWO_23 == q
  {
  }

  lemma Quotient13(q: nat, r: nat)
    requires r < TWO_13
    ensures (q * TWO_13 + r) / TWO_13 == q && (q * TWO_13 + r) % TWO_13 == r
  {
  }

  lemma Quotient10(q: nat, r: nat)
    requires r < 1024
    ensures (q * 1024 + r) % 1024 == r
  {
  }

  /** The ids ever given out grow. */
  ghost predicate Increasing(node: nat, times: seq<nat>) {
    forall i, j {:trigger IdOf(node, times, i), IdOf(node, times, j)} | 0 <= i < j < |times| ::
      IdOf(node, times, i) < IdOf(node, times, j)
  }

  ghost predicate AtMost4096PerMs(times: seq<nat>) {
    forall i | 0 <= i < |times| :: Nth(times, i) <= 4096
  }

  lemma PackOrder(t1: nat, t2: nat, node: nat, s1: nat, s2: nat)
    requires t1 < TWO_41 && t2 < TWO_41 && node < 1024 && s1 < TWO_13 && s2 < TWO_13
    requires t1 < t2 || (t1 == t2 && s1 < s2)
    ensures Pack(t1, node, s1) < Pack(t2, node, s2)
  {
  }

  lemma NextGrows(node: nat, times: seq<nat>, i: nat)
    requires Clock(times) && node < 1024 && i + 1 < |times| && Nth(times, i + 1) <= 4096
    ensures IdOf(node, times, i) < IdOf(node, times, i + 1)
  {
    IdIs(node, times, i);
    IdIs(node, times, i + 1);
    if times[i] == times[i + 1] {
      SequenceGrows(Nth(times, i));
    }
    PackOrder(times[i], times[i + 1], node, SequenceOf(Nth(times, i)), SequenceOf(Nth(times, i + 1)));
  }

  lemma {:induction false} Grows(node: nat, times: seq<nat>, i: nat, j: nat)
    requires Clock(times) && node < 1024 && AtMost4096PerMs(times) && i < j < |times|
    ensures IdOf(node, times, i) < IdOf(node, times, j)
  {
    NextGrows(node, times, j - 1);
    if i < j - 1 {
      Grows(node, times, i, j - 1);
    }
  }

  /** Counting back inside one millisecond. */
  lemma {:induction false} Earlier(times: seq<nat>, i: nat, back: nat)
    requires i < |times| && back < Nth(times, i)
    ensures back <= i && times[i - back] == times[i] && Nth(times, i - back) == Nth(times, i) - back
  {
    if back > 0 {
      Earlier(times, i, back - 1);
    }
  }

  /** The 4097th id of a millisecond repeats its first; in general the n-th repeats the one 4096 before it. */
  lemma RepeatsAfter4096(node: nat, times: seq<nat>, i: nat)
    requires Clock(times) && i < |times| && Nth(times, i) > 4096
    ensures i >= 4096 && times[i - 4096] == times[i] && IdOf(node, times, i - 4096) == IdOf(node, times, i)
  {
    Earlier(times, i, 4096);
    SequenceRepeats(Nth(times, i));
    IdIs(node, times, i);
    IdIs(node, times, i - 4096);
  }

  /** Ids of one generator are strictly increasing, hence distinct, exactly while no millisecond sees more than 4096 calls. */
  lemma IncreasingExactly(node: nat, times: seq<nat>)
    requires Clock(times) && node < 1024
    ensures Increasing(node, times) <==> AtMost4096PerMs(times)
  {
    if AtMost4096PerMs(times) {
      forall i, j | 0 <= i < j < |times|
        ensures IdOf(node, times, i) < IdOf(node, times, j)
      {
        Grows(node, times, i, j);
      }
    } else {
      var i :| 0 <= i < |times| && Nth(times, i) > 4096;
      RepeatsAfter4096(node, times, i);
      assert !(IdOf(node, times, i - 4096) < IdOf(node, times, i));
    }
  }
}
