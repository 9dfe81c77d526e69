/** Double-hash probing in HyperClockTable: slot number `base + i * increment` modulo a power of
    two, with an odd increment. */
module ProbeSequence {
  import opened Arithmetic

  /** The two halves of a hashed cache key. */
  datatype HashedKey = HashedKey(data0: nat, data1: nat)

  /** `data[0] | 1`. */
  function Increment(key: HashedKey): (inc: nat)
    ensures inc % 2 == 1
  {
    if key.data0 % 2 == 1 then key.data0 else key.data0 + 1
  }

  /** The i-th slot that FindSlot looks at in a table of `Pow2(bits)` slots: it starts at the base
      and keeps adding the increment. */
  function Probe(bits: nat, key: HashedKey, i: nat): (s: nat)
    ensures s < Pow2(bits)
  {
    if i == 0 then key.data1 % Pow2(bits) else (Probe(bits, key, i - 1) + Increment(key)) % Pow2(bits)
  }

  /** The increment is the first word of the key, with its lowest bit set. */
  lemma IncrementSetsLowestBit(key: HashedKey)
    ensures Increment(key) / 2 == key.data0 / 2 && Increment(key) % 2 == 1
  {
  }

  /** The closed form of the sequence. */
  lemma {:induction false} ProbeIsLinear(bits: nat, key: HashedKey, i: nat)
    ensures Probe(bits, key, i) == (key.data1 + i * Increment(key)) % Pow2(bits)
    decreases i
  {
    if i == 0 {
      assert key.data1 + i * Increment(key) == key.data1;
    } else {
      ProbeIsLinear(bits, key, i - 1);
      var x := key.data1 + (i - 1) * Increment(key);
      assert key.data1 + i * Increment(key) == x + Increment(key) by { Distribute(i, 1, Increment(key)); }
      AddMod(x, Increment(key), Pow2(bits));
    }
  }

  lemma OddTimesOdd(d: nat, inc: nat)
    requires d % 2 == 1 && inc % 2 == 1
    ensures (d * inc) % 2 == 1
  {
    var a, b := d / 2, inc / 2;
    assert d * inc == (2 * a + 1) * (2 * b + 1) == 2 * (2 * a * b + a + b) + 1;
  }

  lemma HalfOfMultiple(x: nat, half: nat)
    requires half > 0 && x % (2 * half) == 0
    ensures x % 2 == 0 && (x / 2) % half == 0
  {
    var q := x / (2 * half);
    assert x == q * (2 * half) == 2 * (q * half + 0);
    ModOfMultiple(0, q, half);
  }

  lemma TwiceProduct(a: nat, inc: nat)
    ensures (2 * a) * inc / 2 == a * inc
  {
    assert (2 * a) * inc == 2 * (a * inc);
  }

  lemma HalfOfProduct(d: nat, inc: nat)
    requires inc % 2 == 1 && (d * inc) % 2 == 0
    ensures d % 2 == 0 && (d / 2) * inc == d * inc / 2
  {
    if d % 2 == 1 {
      OddTimesOdd(d, inc);
    } else {
      TwiceProduct(d / 2, inc);
    }
  }

  /** An odd increment has no common factor with the table size. */
  lemma {:induction false} OddTimesIsZeroOnlyAtZero(bits: nat, d: nat, inc: nat)
    requires inc % 2 == 1 && d < Pow2(bits)
    requires (d * inc) % Pow2(bits) == 0
    ensures d == 0
    decreases bits
  {
    if bits > 0 {
      HalfOfMultiple(d * inc, Pow2(bits - 1));
      HalfOfProduct(d, inc);
      OddTimesIsZeroOnlyAtZero(bits - 1, d / 2, inc);
    }
  }

  /** No slot comes up twice before the sequence is back at its start. */
  lemma {:induction false} ProbesAreDistinct(bits: nat, key: HashedKey, i: nat, j: nat)
    requires i < Pow2(bits) && j < Pow2(bits)
    requires Probe(bits, key, i) == Probe(bits, key, j)
    ensures i == j
  {
    if i > j {
      ProbesAreDistinct(bits, key, j, i);
    } else {
      ProbeIsLinear(bits, key, i);
      ProbeIsLinear(bits, key, j);
      StepsAreDistinct(bits, key.data1, Increment(key), i, j);
    }
  }

  lemma StepsAreDistinct(bits: nat, base: nat, inc: nat, i: nat, j: nat)
    requires i <= j < Pow2(bits) && inc % 2 == 1
    requires (base + i * inc) % Pow2(bits) == (base + j * inc) % Pow2(bits)
    ensures i == j
  {
    Distribute(j, i, inc);
    AtLeastZero(j - i, inc);
    SameRemainder(base + i * inc, base + j * inc, Pow2(bits));
    OddTimesIsZeroOnlyAtZero(bits, j - i, inc);
  }

  lemma AtLeastZero(a: nat, b: nat)
    ensures a * b >= 0
  {
  }

  /** The slots of the first `m` probes. */
  ghost function Visited(bits: nat, key: HashedKey, m: nat): (v: set<nat>) {
    if m == 0 then {} else Visited(bits, key, m - 1) + {Probe(bits, key, m - 1)}
  }

  ghost function Slots(n: nat): (v: set<nat>)
    ensures |v| == n && forall s: nat :: s in v <==> s < n
  {
    if n == 0 then {}
    else
      var w := Slots(n - 1);
      assert n - 1 !in w;
      w + {n - 1}
  }

  /** One of the first `m` probes hits slot `s`. */
  ghost predicate ProbedBy(bits: nat, key: HashedKey, m: nat, s: nat) {
    exists i :: 0 <= i < m && Probe(bits, key, i) == s
  }

  lemma {:induction false} VisitedAreProbed(bits: nat, key: HashedKey, m: nat, s: nat)
    requires s in Visited(bits, key, m)
    ensures ProbedBy(bits, key, m, s)
    decreases m
  {
    if s in Visited(bits, key, m - 1) {
      VisitedAreProbed(bits, key, m - 1, s);
    } else {
      assert Probe(bits, key, m - 1) == s;
    }
  }

  lemma {:induction false} VisitedCounts(bits: nat, key: HashedKey, m: nat)
    requires m <= Pow2(bits)
    ensures |Visited(bits, key, m)| == m
    decreases m
  {
    if m > 0 {
      VisitedCounts(bits, key, m - 1);
      if Probe(bits, key, m - 1) in Visited(bits, key, m - 1) {
        VisitedAreProbed(bits, key, m - 1, Probe(bits, key, m - 1));
        var i :| 0 <= i < m - 1 && Probe(bits, key, i) == Probe(bits, key, m - 1);
        ProbesAreDistinct(bits, key, i, m - 1);
      }
    }
  }

  lemma {:induction false} SubsetOfSameSize(a: set<nat>, b: set<nat>)
    requires a <= b && |a| == |b|
    ensures a == b
  {
    if a != b {
      var x :| x in b && x !in a;
      assert a <= b - {x};
      SubsetIsSmaller(a, b - {x});
      assert false;
    }
  }

  lemma {:induction false} SubsetIsSmaller(a: set<nat>, b: set<nat>)
    requires a <= b
    ensures |a| <= |b|
  {
    if a != {} {
      var x :| x in a;
      SubsetIsSmaller(a - {x}, b - {x});
    }
  }

  /** Every slot comes up. */
  lemma {:induction false} EverySlotIsProbed(bits: nat, key: HashedKey, s: nat)
    requires s < Pow2(bits)
    ensures ProbedBy(bits, key, Pow2(bits), s)
  {
    var n := Pow2(bits);
    VisitedCounts(bits, key, n);
    forall v | v in Visited(bits, key, n)
      ensures v in Slots(n)
    {
      VisitedAreProbed(bits, key, n, v);
    }
    SubsetOfSameSize(Visited(bits, key, n), Slots(n));
    VisitedAreProbed(bits, key, n, s);
  }

  /** The position of a slot in a key's probe sequence. */
  ghost function Rank(bits: nat, key: HashedKey, s: nat): (i: nat)
    requires s < Pow2(bits)
    ensures i < Pow2(bits) && Probe(bits, key, i) == s
  {
    EverySlotIsProbed(bits, key, s);
    var i :| 0 <= i < Pow2(bits) && Probe(bits, key, i) == s;
    i
  }

  lemma RankOfProbe(bits: nat, key: HashedKey, i: nat)
    requires i < Pow2(bits)
    ensures Rank(bits, key, Probe(bits, key, i)) == i
  {
    ProbesAreDistinct(bits, key, i, Rank(bits, key, Probe(bits, key, i)));
  }

  /** The sequence is back at its first slot after exactly as many probes as there are slots. */
  lemma BackAtFirst(bits: nat, key: HashedKey, i: nat)
    requires i < Pow2(bits)
    ensures Probe(bits, key, i + 1) == Probe(bits, key, 0) <==> i + 1 == Pow2(bits)
  {
    var n := Pow2(bits);
    if i + 1 < n {
      if Probe(bits, key, i + 1) == Probe(bits, key, 0) {
        ProbesAreDistinct(bits, key, i + 1, 0);
        assert false;
      }
    } else {
      ProbeIsLinear(bits, key, n);
      assert key.data1 + n * Increment(key) == Increment(key) * n + key.data1;
      ModOfMultiple(key.data1, Increment(key), n);
    }
  }
}
