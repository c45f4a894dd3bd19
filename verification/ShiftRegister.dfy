/** A register that takes a byte in by addition and then makes eight steps, over any additive values.
  *
  * Nothing here knows about words or polynomials: the facts hold for every step that is linear and injective.
  */
module ShiftRegister {
  import opened Bytes

  function Iterate<T>(step: T -> T, c: T, n: nat): T
    decreases n
  {
    if n == 0 then c else Iterate(step, step(c), n - 1)
  }

  /** The register after the bytes of `data`. */
  function Register<T>(step: T -> T, add: (T, T) -> T, embed: byte -> T, init: T, data: seq<byte>): T {
    if data == [] then init
    else Iterate(step, add(Register(step, add, embed, init, data[..|data| - 1]), embed(data[|data| - 1])), 8)
  }

  ghost predicate Linear<T(!new)>(step: T -> T, add: (T, T) -> T) {
    forall a, b :: step(add(a, b)) == add(step(a), step(b))
  }

  ghost predicate Injective<T(!new)>(step: T -> T) {
    forall a, b :: step(a) == step(b) ==> a == b
  }

  /** Addition is associative and can be cancelled on either side. */
  ghost predicate Group<T(!new)>(add: (T, T) -> T) {
    && (forall a, b, c :: add(add(a, b), c) == add(a, add(b, c)))
    && (forall a, b, m :: add(a, m) == add(b, m) ==> a == b)
    && (forall a, b, m :: add(m, a) == add(m, b) ==> a == b)
  }

  lemma {:induction false} IterateSplit<T>(step: T -> T, c: T, a: nat, b: nat)
    ensures Iterate(step, c, a + b) == Iterate(step, Iterate(step, c, a), b)
    decreases a
  {
    if a > 0 {
      IterateSplit(step, step(c), a - 1, b);
    }
  }

  lemma {:induction false} IterateLinear<T(!new)>(step: T -> T, add: (T, T) -> T, x: T, y: T, n: nat)
    requires Linear(step, add)
    ensures Iterate(step, add(x, y), n) == add(Iterate(step, x, n), Iterate(step, y, n))
    decreases n
  {
    if n > 0 {
      IterateLinear(step, add, step(x), step(y), n - 1);
    }
  }

  /** A register taken through the bytes of `data` by any step function, such as one that looks up a table. */
  function Fold<T>(next: (T, byte) -> T, init: T, data: seq<byte>): T {
    if data == [] then init else next(Fold(next, init, data[..|data| - 1]), data[|data| - 1])
  }

  /** `next` does at once what adding the byte and making eight steps does. */
  ghost predicate Refines<T(!new)>(next: (T, byte) -> T, step: T -> T, add: (T, T) -> T, embed: byte -> T) {
    forall c, b :: RefinesAt(next, step, add, embed, c, b)
  }

  ghost predicate RefinesAt<T>(next: (T, byte) -> T, step: T -> T, add: (T, T) -> T, embed: byte -> T, c: T, b: byte) {
    next(c, b) == Iterate(step, add(c, embed(b)), 8)
  }

  lemma {:induction false} FoldIsRegister<T(!new)>(next: (T, byte) -> T, step: T -> T, add: (T, T) -> T, embed: byte -> T, init: T, data: seq<byte>)
    requires Refines(next, step, add, embed)
    ensures Fold(next, init, data) == Register(step, add, embed, init, data)
    decreases |data|
  {
    if data != [] {
      var front, b := data[..|data| - 1], data[|data| - 1];
      FoldIsRegister(next, step, add, embed, init, front);
      assert RefinesAt(next, step, add, embed, Fold(next, init, front), b);
    }
  }

  ghost predicate Splits<T(!new)>(add: (T, T) -> T, embed: byte -> T, high: (T, byte) -> T, low: (T, byte) -> T) {
    forall c, b :: add(c, embed(b)) == add(high(c, b), low(c, b))
  }

  ghost predicate Joins<T(!new)>(next: (T, byte) -> T, add: (T, T) -> T, high: (T, byte) -> T, low: (T, byte) -> T) {
    forall c, b :: next(c, b) == add(high(c, b), low(c, b))
  }

  ghost predicate StepsTo<T(!new)>(step: T -> T, part: (T, byte) -> T, stepped: (T, byte) -> T) {
    forall c, b :: stepped(c, b) == Iterate(step, part(c, b), 8)
  }

  /** A step that treats the two parts of the register separately and adds the results refines the plain one. */
  lemma RefinesByParts<T(!new)>(next: (T, byte) -> T, step: T -> T, add: (T, T) -> T, embed: byte -> T,
                                high: (T, byte) -> T, low: (T, byte) -> T, high': (T, byte) -> T, low': (T, byte) -> T)
    requires Linear(step, add) && Splits(add, embed, high, low) && Joins(next, add, high', low')
    requires StepsTo(step, high, high') && StepsTo(step, low, low')
    ensures Refines(next, step, add, embed)
  {
    forall c, b
      ensures RefinesAt(next, step, add, embed, c, b)
    {
      IterateLinear(step, add, high(c, b), low(c, b), 8);
    }
  }

  lemma {:induction false} IterateInjective<T(!new)>(step: T -> T, x: T, y: T, n: nat)
    requires Injective(step) && Iterate(step, x, n) == Iterate(step, y, n)
    ensures x == y
    decreases n
  {
    if n > 0 {
      IterateInjective(step, step(x), step(y), n - 1);
    }
  }

  lemma {:induction false} RegisterOfConcat<T>(step: T -> T, add: (T, T) -> T, embed: byte -> T, init: T, a: seq<byte>, b: seq<byte>)
    ensures Register(step, add, embed, init, a + b) ==
            Register(step, add, embed, Register(step, add, embed, init, a), b)
    decreases |b|
  {
    if b == [] {
      assert a + b == a;
    } else {
      var m := |b| - 1;
      assert (a + b)[..|a + b| - 1] == a + b[..m];
      RegisterOfConcat(step, add, embed, init, a, b[..m]);
    }
  }

  /** Different registers stay different over any equal bytes. */
  lemma {:induction false} RegisterInjective<T(!new)>(step: T -> T, add: (T, T) -> T, embed: byte -> T, x: T, y: T, data: seq<byte>)
    requires Injective(step) && Group(add)
    requires Register(step, add, embed, x, data) == Register(step, add, embed, y, data)
    ensures x == y
    decreases |data|
  {
    if data != [] {
      var front, b := data[..|data| - 1], embed(data[|data| - 1]);
      var x', y' := Register(step, add, embed, x, front), Register(step, add, embed, y, front);
      IterateInjective(step, add(x', b), add(y', b), 8);
      RegisterInjective(step, add, embed, x, y, front);
    }
  }

  /** The sum of `init` and the bytes of `a`, byte number k placed by `place(_, k)`. */
  function Placed<T>(add: (T, T) -> T, place: (byte, nat) -> T, init: T, a: seq<byte>): T {
    if a == [] then init
    else add(Placed(add, place, init, a[..|a| - 1]), place(a[|a| - 1], |a| - 1))
  }

  lemma AbsorbByte<T>(step: T -> T, c: T, n: nat)
    ensures Iterate(step, Iterate(step, c, n), 8) == Iterate(step, c, n + 8)
  {
    IterateSplit(step, c, n, 8);
  }

  /** A sum with four placed bytes. */
  function SumOfFour<T>(add: (T, T) -> T, place: (byte, nat) -> T, init: T, a0: byte, a1: byte, a2: byte, a3: byte): T {
    add(add(add(add(init, place(a0, 0)), place(a1, 1)), place(a2, 2)), place(a3, 3))
  }

  /** The placed bytes alone. */
  function JoinOfFour<T>(add: (T, T) -> T, place: (byte, nat) -> T, a0: byte, a1: byte, a2: byte, a3: byte): T {
    add(add(add(place(a0, 0), place(a1, 1)), place(a2, 2)), place(a3, 3))
  }

  lemma SumOfFourFactors<T(!new)>(add: (T, T) -> T, place: (byte, nat) -> T, init: T, a0: byte, a1: byte, a2: byte, a3: byte)
    requires Group(add)
    ensures SumOfFour(add, place, init, a0, a1, a2, a3) == add(init, JoinOfFour(add, place, a0, a1, a2, a3))
  {
    var p01 := add(place(a0, 0), place(a1, 1));
    var p012 := add(p01, place(a2, 2));
    assert add(add(init, place(a0, 0)), place(a1, 1)) == add(init, p01);
    assert add(add(init, p01), place(a2, 2)) == add(init, p012);
    assert add(add(init, p012), place(a3, 3)) == add(init, add(p012, place(a3, 3)));
  }

  /** Equal sums on one register come from equal joins. */
  lemma SameSumSameJoin<T(!new)>(add: (T, T) -> T, place: (byte, nat) -> T, init: T, a0: byte, a1: byte, a2: byte, a3: byte,
                                 b0: byte, b1: byte, b2: byte, b3: byte)
    requires Group(add)
    requires SumOfFour(add, place, init, a0, a1, a2, a3) == SumOfFour(add, place, init, b0, b1, b2, b3)
    ensures JoinOfFour(add, place, a0, a1, a2, a3) == JoinOfFour(add, place, b0, b1, b2, b3)
  {
    SumOfFourFactors(add, place, init, a0, a1, a2, a3);
    SumOfFourFactors(add, place, init, b0, b1, b2, b3);
  }

  lemma PlacedFour<T>(add: (T, T) -> T, place: (byte, nat) -> T, init: T, a: seq<byte>)
    requires |a| == 4
    ensures Placed(add, place, init, a) == SumOfFour(add, place, init, a[0], a[1], a[2], a[3])
  {
    assert a[..3][..2] == a[..2] && a[..2][..1] == a[..1] && a[..1][..0] == [];
    assert Placed(add, place, init, a[..1]) == add(init, place(a[0], 0));
    assert Placed(add, place, init, a[..2]) == add(Placed(add, place, init, a[..1]), place(a[1], 1));
    assert Placed(add, place, init, a[..3]) == add(Placed(add, place, init, a[..2]), place(a[2], 2));
  }

  /** Sums of four placed bytes tell the bytes apart. */
  ghost predicate FourDistinct<T(!new)>(add: (T, T) -> T, place: (byte, nat) -> T) {
    forall init, a0, a1, a2, a3, b0, b1, b2, b3 |
      SumOfFour(add, place, init, a0, a1, a2, a3) == SumOfFour(add, place, init, b0, b1, b2, b3) ::
      a0 == b0 && a1 == b1 && a2 == b2 && a3 == b3
  }

  /** Then so do sums of fewer. */
  lemma {:induction false} PlacedInjective<T(!new)>(add: (T, T) -> T, place: (byte, nat) -> T, init: T, a: seq<byte>, b: seq<byte>)
    requires FourDistinct(add, place) && |a| == |b| <= 4
    requires Placed(add, place, init, a) == Placed(add, place, init, b)
    ensures a == b
    decreases 4 - |a|
  {
    if |a| < 4 {
      var zero: byte := 0;
      assert (a + [zero])[..|a|] == a && (b + [zero])[..|b|] == b;
      PlacedInjective(add, place, init, a + [zero], b + [zero]);
    } else {
      PlacedFour(add, place, init, a);
      PlacedFour(add, place, init, b);
    }
  }

  /** A byte placed at position `k` has become its plain embedding after `k` bytes' worth of steps. */
  ghost predicate StepsDown<T>(step: T -> T, embed: byte -> T, place: (byte, nat) -> T, b: byte, k: nat) {
    Iterate(step, place(b, k), 8 * k) == embed(b)
  }

  /** Bytes that step down to their plain embedding are absorbed by adding all of them at once and stepping afterwards. */
  lemma {:induction false} Absorb<T(!new)>(step: T -> T, add: (T, T) -> T, embed: byte -> T, place: (byte, nat) -> T, init: T, a: seq<byte>)
    requires Linear(step, add)
    requires forall k: nat, b: byte | k < |a| :: StepsDown(step, embed, place, b, k)
    ensures Register(step, add, embed, init, a) == Iterate(step, Placed(add, place, init, a), 8 * |a|)
    decreases |a|
  {
    if a != [] {
      var k := |a| - 1;
      var n := 8 * k;
      var sum, top := Placed(add, place, init, a[..k]), place(a[k], k);
      Absorb(step, add, embed, place, init, a[..k]);
      assert StepsDown(step, embed, place, a[k], k);
      IterateLinear(step, add, sum, top, n);
      AbsorbByte(step, add(sum, top), n);
    }
  }

  /** So registers fed different bytes differ, as long as the sums of the placed bytes do. */
  lemma BurstDetected<T(!new)>(step: T -> T, add: (T, T) -> T, embed: byte -> T, place: (byte, nat) -> T, init: T,
                               prefix: seq<byte>, a: seq<byte>, b: seq<byte>, suffix: seq<byte>)
    requires Linear(step, add) && Injective(step) && Group(add)
    requires |a| == |b|
    requires forall k: nat, c: byte | k < |a| :: StepsDown(step, embed, place, c, k)
    requires var r := Register(step, add, embed, init, prefix); Placed(add, place, r, a) != Placed(add, place, r, b)
    ensures Register(step, add, embed, init, prefix + a + suffix) != Register(step, add, embed, init, prefix + b + suffix)
  {
    var r := Register(step, add, embed, init, prefix);
    RegisterOfConcat(step, add, embed, init, prefix, a);
    RegisterOfConcat(step, add, embed, init, prefix, b);
    RegisterOfConcat(step, add, embed, init, prefix + a, suffix);
    RegisterOfConcat(step, add, embed, init, prefix + b, suffix);
    Absorb(step, add, embed, place, r, a);
    Absorb(step, add, embed, place, r, b);
    var x, y := Register(step, add, embed, r, a), Register(step, add, embed, r, b);
    if x == y {
      IterateInjective(step, Placed(add, place, r, a), Placed(add, place, r, b), 8 * |a|);
    } else if Register(step, add, embed, x, suffix) == Register(step, add, embed, y, suffix) {
      RegisterInjective(step, add, embed, x, y, suffix);
    }
  }

  /** Four further bytes, absorbed at once: only their sum with the register matters. */
  lemma AbsorbFour<T(!new)>(step: T -> T, add: (T, T) -> T, embed: byte -> T, place: (byte, nat) -> T, init: T,
                            data: seq<byte>, w: seq<byte>, sum: T, result: T)
    requires Linear(step, add) && |w| == 4
    requires forall k: nat, c: byte | k < 4 :: StepsDown(step, embed, place, c, k)
    requires SumOfFour(add, place, Register(step, add, embed, init, data), w[0], w[1], w[2], w[3]) == sum
    requires Iterate(step, sum, 32) == result
    ensures Register(step, add, embed, init, data + w) == result
  {
    var r := Register(step, add, embed, init, data);
    RegisterOfConcat(step, add, embed, init, data, w);
    Absorb(step, add, embed, place, r, w);
    PlacedFour(add, place, r, w);
  }
}
