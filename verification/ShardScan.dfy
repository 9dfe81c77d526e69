/** ApplyToAllEntries over shards that go on changing between the partial scans.

    A scan remembers a position in the space of hashes, not a chain number, so it keeps its place when
    a table grows. */
module ShardScan {
  import opened Arithmetic
  import opened LruTable

  const STATE_BITS: nat := 64

  /** SIZE_MAX: this shard is done. */
  const DONE: nat := 0xFFFF_FFFF_FFFF_FFFF

  /** What a partial scan finds when it takes the shard's mutex. */
  datatype Snapshot = Snapshot(bits: nat, chains: seq<seq<Node>>)

  ghost predicate Good(t: Snapshot) {
    4 <= t.bits <= MAX_BITS && Sound(t.chains, t.bits)
  }

  /** The span of states that one chain stands for. */
  function Span(bits: nat): (w: nat)
    requires bits <= HASH_BITS
    ensures w > 0
  {
    Pow2(STATE_BITS - bits)
  }

  /** A hash as a state: its upper bits are the upper bits of the state. */
  function Place(hash: nat): nat {
    hash * Pow2(STATE_BITS - HASH_BITS)
  }

  predicate Aligned(state: nat, bits: nat)
    requires bits <= HASH_BITS
  {
    state % Span(bits) == 0
  }

  /** Chains below `q` hold the hashes placed below the state that `q` starts at. */
  lemma {:induction false} ChainBelow(bits: nat, hash: nat, q: nat)
    requires bits <= HASH_BITS
    ensures Chain(hash, bits) < q <==> Place(hash) < q * Span(bits)
  {
    var g := Pow2(STATE_BITS - HASH_BITS);
    Pow2Splits(STATE_BITS - HASH_BITS, HASH_BITS - bits);
    assert Span(bits) == g * Width(bits);
    QuotientBelow(hash, Width(bits), q);
    Regroup(q, g, Width(bits));
    ScaleOrder(hash, q * Width(bits), g);
  }

  /** A state stays in step with a table that has grown. */
  lemma {:induction false} GrowthKeepsAligned(state: nat, bits: nat, more: nat)
    requires bits <= more <= HASH_BITS && Aligned(state, bits)
    ensures Aligned(state, more)
  {
    Pow2Splits(more - bits, STATE_BITS - more);
    MultipleOfMultiple(state, Pow2(more - bits), Span(more));
  }

  /** The nodes of `chains[a..b]` in the order that ApplyToEntriesRange meets them. */
  function Concat(chains: seq<seq<Node>>, a: nat, b: nat): seq<Node>
    requires b <= |chains|
  {
    if b <= a then [] else Concat(chains, a, b - 1) + chains[b - 1]
  }

  lemma {:induction false} CountInChain(chain: seq<Node>, n: Node)
    requires NoRepeats(chain)
    ensures multiset(chain)[n] == if n in chain then 1 else 0
  {
    if chain != [] {
      var last := |chain| - 1;
      CountInChain(chain[..last], n);
      assert chain == chain[..last] + [chain[last]];
      if chain[last] == n {
        assert n !in chain[..last];
      }
    }
  }

  lemma {:induction false} CountUpTo(chains: seq<seq<Node>>, a: nat, b: nat, n: Node, home: nat, times: nat)
    requires b <= |chains|
    requires forall i :: 0 <= i < |chains| ==> multiset(chains[i])[n] == if i == home then times else 0
    ensures multiset(Concat(chains, a, b))[n] == if a <= home < b then times else 0
    decreases b
  {
    if a < b {
      CountUpTo(chains, a, b - 1, n, home, times);
      assert multiset(Concat(chains, a, b)) == multiset(Concat(chains, a, b - 1)) + multiset(chains[b - 1]);
    }
  }

  /** A range of chains shows each of its nodes once, and no other. */
  lemma {:induction false} CountInRange(chains: seq<seq<Node>>, bits: nat, a: nat, b: nat, n: Node)
    requires Sound(chains, bits) && b <= |chains| && n.tag.hash < Pow2(HASH_BITS)
    ensures multiset(Concat(chains, a, b))[n] ==
      if n in Nodes(chains) && a <= Chain(n.tag.hash, bits) < b then 1 else 0
  {
    var home := Chain(n.tag.hash, bits);
    NodeIsInItsChain(chains, bits, n);
    var times := if n in chains[home] then 1 else 0;
    forall i | 0 <= i < |chains|
      ensures multiset(chains[i])[n] == if i == home then times else 0
    {
      CountInChain(chains[i], n);
    }
    CountUpTo(chains, a, b, n, home, times);
  }

  /** Where the scan has got to. */
  function Reached(state: nat): nat {
    if state == DONE then Pow2(STATE_BITS) else state
  }

  /** A partial scan shows exactly the entries placed between its old and its new state, once each. */
  ghost predicate Shows(t: Snapshot, from: nat, to: nat, seen: seq<Node>) {
    forall n: Node :: n.tag.hash < Pow2(HASH_BITS) ==>
      multiset(seen)[n] == if n in Nodes(t.chains) && from <= Place(n.tag.hash) < to then 1 else 0
  }

  /** The state that ApplyToSomeEntries leaves behind. */
  function NextState(bits: nat, state: nat, perLock: nat): int
    requires bits <= HASH_BITS
  {
    var end := state / Span(bits) + perLock;
    if end >= Pow2(bits) then DONE else end * Span(bits)
  }

  method ApplyToEntriesRange(chains: seq<seq<Node>>, begin: nat, end: nat) returns (seen: seq<Node>)
    requires begin <= end <= |chains|
    ensures seen == Concat(chains, begin, end)
  {
    seen := [];
    for i := begin to end
      invariant seen == Concat(chains, begin, i)
    {
      seen := seen + chains[i];
    }
  }

  /** ApplyToSomeEntries: `perLock` chains from the state on. */
  method ApplyToSomeEntries(t: Snapshot, perLock: nat, state: nat) returns (seen: seq<Node>, next: nat)
    requires Good(t) && perLock > 0 && Aligned(state, t.bits) && state < Pow2(STATE_BITS)
    ensures Shows(t, state, Reached(next), seen)
    ensures next != DONE ==> Aligned(next, t.bits) && state < next < Pow2(STATE_BITS)
    ensures next != DONE ==> state + perLock * Span(t.bits) == next
    ensures next == NextState(t.bits, state, perLock)
  {
    var length := Pow2(t.bits);
    var begin := state / Span(t.bits);
    var end := begin + perLock;
    ScanBounds(t.bits, state, perLock);
    if end >= length {
      end := length;
      next := DONE;
    } else {
      next := end * Span(t.bits);
    }
    seen := ApplyToEntriesRange(t.chains, begin, end);
    RangeShows(t, begin, end);
  }

  lemma {:induction false} RangeShows(t: Snapshot, begin: nat, end: nat)
    requires Good(t) && end <= |t.chains|
    ensures Shows(t, begin * Span(t.bits), end * Span(t.bits), Concat(t.chains, begin, end))
  {
    forall n: Node | n.tag.hash < Pow2(HASH_BITS)
      ensures multiset(Concat(t.chains, begin, end))[n] ==
        if n in Nodes(t.chains) && begin * Span(t.bits) <= Place(n.tag.hash) < end * Span(t.bits) then 1 else 0
    {
      CountInRange(t.chains, t.bits, begin, end, n);
      ChainBelow(t.bits, n.tag.hash, begin);
      ChainBelow(t.bits, n.tag.hash, end);
    }
  }

  lemma ScanBounds(bits: nat, state: nat, perLock: nat)
    requires 0 < bits <= MAX_BITS && Aligned(state, bits) && state < Pow2(STATE_BITS) && perLock > 0
    ensures var begin := state / Span(bits);
      && 0 <= begin < Pow2(bits)
      && begin * Span(bits) == state
      && Pow2(bits) * Span(bits) == Pow2(STATE_BITS)
      && (begin + perLock < Pow2(bits) ==>
            var next := (begin + perLock) * Span(bits);
            && state < next == state + perLock * Span(bits) < Pow2(STATE_BITS)
            && Aligned(next, bits) && next != DONE)
  {
    var half := Pow2(STATE_BITS - bits - 1);
    assert Span(bits) == 2 * half;
    Pow2Splits(bits, STATE_BITS - bits);
    BoundsInUnits(state, Pow2(bits), half, perLock);
  }

  lemma BoundsInUnits(state: nat, n: nat, half: nat, perLock: nat)
    requires half > 0 && perLock > 0 && state % (2 * half) == 0 && state < n * (2 * half)
    ensures var w := 2 * half; var begin := state / w;
      && 0 <= begin < n
      && begin * w == state
      && (begin + perLock < n ==>
            && state < (begin + perLock) * w == state + perLock * w < n * w
            && ((begin + perLock) * w) % w == 0 && (begin + perLock) * w != DONE)
  {
    var w := 2 * half;
    var begin := state / w;
    QuotientBelow(state, w, n);
    assert (begin + perLock) * w == begin * w + perLock * w;
    if begin + perLock < n {
      ScaleOrder(begin + perLock, n, w);
      AtLeastOne(perLock, w);
      ModOfMultiple(0, begin + perLock, w);
      EvenIsNotDone((begin + perLock) * w, begin + perLock, half);
    }
  }

  lemma EvenIsNotDone(x: nat, q: nat, half: nat)
    requires x == q * (2 * half)
    ensures x != DONE
  {
    assert x == 2 * (q * half);
  }

  /** What a partial scan of a table finds. */
  ghost function SnapshotOf(t: HandleTable): Snapshot
    reads t
  {
    Snapshot(t.bits, t.chains)
  }

  datatype TableOp = PutNode(node: Node) | CutTag(tag: Tag)

  function TagOf(op: TableOp): Tag {
    match op
    case PutNode(n) => n.tag
    case CutTag(tag) => tag
  }

  /** What an operation makes of the map that a table stands for. */
  function Operated(model: map<Tag, nat>, op: TableOp): map<Tag, nat> {
    match op
    case PutNode(n) => model[n.tag := n.id]
    case CutTag(tag) => model - {tag}
  }

  function OperatedAll(model: map<Tag, nat>, ops: seq<TableOp>): map<Tag, nat> {
    if ops == [] then model else Operated(OperatedAll(model, ops[..|ops| - 1]), ops[|ops| - 1])
  }

  /** A tag that no operation is about keeps what it has. */
  lemma {:induction false} UntouchedStays(model: map<Tag, nat>, ops: seq<TableOp>, tag: Tag)
    requires forall i :: 0 <= i < |ops| ==> TagOf(ops[i]) != tag
    ensures tag in OperatedAll(model, ops) <==> tag in model
    ensures tag in model ==> OperatedAll(model, ops)[tag] == model[tag]
  {
    if ops != [] {
      UntouchedStays(model, ops[..|ops| - 1], tag);
    }
  }

  /** A tag has what the last operation about it has put there, and nothing if that has removed it. */
  lemma {:induction false} LastOperationCounts(model: map<Tag, nat>, ops: seq<TableOp>, x: nat)
    requires x < |ops| && forall y :: x < y < |ops| ==> TagOf(ops[y]) != TagOf(ops[x])
    ensures var tag, now := TagOf(ops[x]), OperatedAll(model, ops);
      match ops[x]
      case PutNode(n) => tag in now && now[tag] == n.id
      case CutTag(_) => tag !in now
  {
    var most := ops[..|ops| - 1];
    if x < |most| {
      LastOperationCounts(model, most, x);
      assert most[x] == ops[x];
    }
  }

  method OperateOnce(t: HandleTable, op: TableOp)
    requires t.Valid() && TagOf(op).hash < Pow2(HASH_BITS)
    modifies t
    ensures t.Valid() && old(t.bits) <= t.bits && t.model == Operated(old(t.model), op)
  {
    match op
    case PutNode(n) => var _ := t.Insert(n);
    case CutTag(tag) => var _ := t.Remove(tag);
  }

  method OperateAll(t: HandleTable, ops: seq<TableOp>)
    requires t.Valid() && forall i :: 0 <= i < |ops| ==> TagOf(ops[i]).hash < Pow2(HASH_BITS)
    modifies t
    ensures t.Valid() && old(t.bits) <= t.bits && t.model == OperatedAll(old(t.model), ops)
  {
    for i := 0 to |ops|
      invariant t.Valid() && old(t.bits) <= t.bits && t.model == OperatedAll(old(t.model), ops[..i])
    {
      OperateOnce(t, ops[i]);
      assert ops[..i + 1][..i] == ops[..i];
    }
    assert ops[..|ops|] == ops;
  }

  /** Whatever is inserted and removed between two rounds, the next round finds a good table that is no smaller,
      and every entry whose key nobody touched is still there. */
  method Operate(t: HandleTable, ops: seq<TableOp>)
    requires t.Valid() && forall i :: 0 <= i < |ops| ==> TagOf(ops[i]).hash < Pow2(HASH_BITS)
    modifies t
    ensures t.Valid() && Good(SnapshotOf(t)) && old(t.bits) <= t.bits && t.model == OperatedAll(old(t.model), ops)
    ensures forall x: Node :: (forall i :: 0 <= i < |ops| ==> TagOf(ops[i]) != x.tag) ==>
      (x in Nodes(t.chains) <==> x in old(Nodes(t.chains)))
  {
    OperateAll(t, ops);
    forall x: Node | forall i :: 0 <= i < |ops| ==> TagOf(ops[i]) != x.tag
      ensures x in Nodes(t.chains) <==> x in old(Nodes(t.chains))
    {
      UntouchedStays(old(t.model), ops, x.tag);
    }
  }

  /** What shard `s` looks like at the `r`-th round of scans; tables never shrink. */
  type Environment = (nat, nat) -> Snapshot

  ghost predicate Growing(env: Environment, shards: nat) {
    forall s: nat, r: nat :: s < shards ==> Good(env(s, r)) && env(s, r).bits <= env(s, r + 1).bits
  }

  /** The entry is in the shard at every round. */
  ghost predicate Stays(env: Environment, s: nat, n: Node) {
    n.tag.hash < Pow2(HASH_BITS) && forall r: nat :: n in Nodes(env(s, r).chains)
  }

  /** How far a scan of one shard has got before round `r`, and what it has shown so far: nothing placed
      at or past its state, nothing twice, and everything before it that stays. */
  ghost predicate Progress(env: Environment, s: nat, r: nat, state: nat, seen: seq<Node>)
    requires env(s, r).bits <= HASH_BITS
  {
    && (state == DONE || (state < Pow2(STATE_BITS) && Aligned(state, env(s, r).bits)))
    && forall n: Node :: n.tag.hash < Pow2(HASH_BITS) ==>
      && multiset(seen)[n] <= 1
      && (Reached(state) <= Place(n.tag.hash) ==> multiset(seen)[n] == 0)
      && (Stays(env, s, n) && Place(n.tag.hash) < Reached(state) ==> multiset(seen)[n] == 1)
  }

  lemma {:induction false} ProgressGoesOn(
    env: Environment, shards: nat, s: nat, r: nat, state: nat, seen: seq<Node>, next: nat, more: seq<Node>)
    requires Growing(env, shards) && s < shards && Progress(env, s, r, state, seen) && state != DONE
    requires Shows(env(s, r), state, Reached(next), more)
    requires next != DONE ==> Aligned(next, env(s, r).bits) && state < next < Pow2(STATE_BITS)
    ensures Progress(env, s, r + 1, next, seen + more)
  {
    assert env(s, r).bits <= env(s, r + 1).bits && Good(env(s, r)) && Good(env(s, r + 1));
    if next != DONE {
      GrowthKeepsAligned(next, env(s, r).bits, env(s, r + 1).bits);
    }
    forall n: Node | n.tag.hash < Pow2(HASH_BITS)
      ensures multiset(seen + more)[n] <= 1
      ensures Reached(next) <= Place(n.tag.hash) ==> multiset(seen + more)[n] == 0
      ensures Stays(env, s, n) && Place(n.tag.hash) < Reached(next) ==> multiset(seen + more)[n] == 1
    {
      assert multiset(seen + more)[n] == multiset(seen)[n] + multiset(more)[n];
    }
  }

  lemma PlaceInRange(hash: nat)
    requires hash < Pow2(HASH_BITS)
    ensures Place(hash) < Pow2(STATE_BITS)
  {
    Pow2Splits(HASH_BITS, STATE_BITS - HASH_BITS);
    ScaleOrder(hash, Pow2(HASH_BITS), Pow2(STATE_BITS - HASH_BITS));
  }

  /** Each round moves a scan by at least the span of a chain of the largest table, so there are fewer
      rounds than such a table has chains. */
  ghost predicate InStep(env: Environment, s: nat, r: nat, state: nat, seen: seq<Node>) {
    && Good(env(s, r))
    && Progress(env, s, r, state, seen)
    && (state == DONE || (r < Pow2(MAX_BITS) && r * Span(MAX_BITS) <= state))
  }

  lemma RoundMoves(r: nat, n: nat, k: nat, p: nat, w: nat, state: nat)
    requires k > 0 && p > 0 && w > 0 && r * w <= state && state + k * (p * w) < n * w
    ensures (r + 1) * w <= state + k * (p * w) && r + 1 < n
  {
    AtLeastOne(p, w);
    AtLeastOne(k, p * w);
    Distribute(r + 1, 1, w);
    ScaleOrder(r + 1, n, w);
  }

  lemma RoundsAreBounded(r: nat, bits: nat, state: nat, perLock: nat, next: nat)
    requires bits <= MAX_BITS && perLock > 0
    requires r * Span(MAX_BITS) <= state && state + perLock * Span(bits) == next < Pow2(STATE_BITS)
    ensures (r + 1) * Span(MAX_BITS) <= next && r + 1 < Pow2(MAX_BITS)
  {
    Pow2Splits(MAX_BITS - bits, STATE_BITS - MAX_BITS);
    Pow2Splits(MAX_BITS, STATE_BITS - MAX_BITS);
    RoundMoves(r, Pow2(MAX_BITS), perLock, Pow2(MAX_BITS - bits), Span(MAX_BITS), state);
  }

  /** One shard's turn in round `r`. */
  method ScanShard(env: Environment, shards: nat, s: nat, r: nat, perLock: nat, state: nat, seen: seq<Node>)
    returns (next: nat, all: seq<Node>)
    requires perLock > 0 && Growing(env, shards) && s < shards && InStep(env, s, r, state, seen)
    ensures InStep(env, s, r + 1, next, all)
    ensures state == DONE ==> next == DONE
  {
    assert Good(env(s, r)) && Good(env(s, r + 1));
    next, all := state, seen;
    if state != DONE {
      var more;
      more, next := ApplyToSomeEntries(env(s, r), perLock, state);
      ProgressGoesOn(env, shards, s, r, state, seen, next, more);
      if next != DONE {
        RoundsAreBounded(r, env(s, r).bits, state, perLock, next);
      }
      all := seen + more;
    }
  }

  /** ApplyToAllEntries: rounds of partial scans over all shards until each is done. An entry that stays
      in its shard is shown exactly once, and no entry twice, whatever else changes in between. */
  method ApplyToAllEntries(shards: nat, averagePerLock: nat, env: Environment) returns (seen: seq<seq<Node>>)
    requires averagePerLock > 0 && Growing(env, shards)
    ensures |seen| == shards
    ensures forall s, n: Node :: 0 <= s < shards && n.tag.hash < Pow2(HASH_BITS) ==> multiset(seen[s])[n] <= 1
    ensures forall s, n: Node :: 0 <= s < shards && Stays(env, s, n) ==> multiset(seen[s])[n] == 1
  {
    var perLock := if averagePerLock < 1 then averagePerLock else 1;
    var states := seq(shards, _ => 0);
    seen := seq(shards, _ => []);
    var remaining, round := true, 0;
    forall s | 0 <= s < shards
      ensures InStep(env, s, 0, states[s], seen[s])
    {
      StartsInStep(env, shards, s);
    }
    while remaining
      invariant AllInStep(env, shards, round, states, seen)
      invariant remaining || forall s :: 0 <= s < shards ==> states[s] == DONE
      invariant remaining ==> round < Pow2(MAX_BITS)
      decreases remaining, Pow2(MAX_BITS) - round
    {
      states, seen, remaining := ScanRound(env, shards, round, perLock, states, seen);
      round := round + 1;
    }
    forall s | 0 <= s < shards
      ensures ShownOnce(env, s, seen[s])
    {
      DoneShowsOnce(env, s, round, seen[s]);
    }
  }

  ghost predicate AllInStep(env: Environment, shards: nat, r: nat, states: seq<nat>, seen: seq<seq<Node>>) {
    |states| == |seen| == shards && forall s :: 0 <= s < shards ==> InStep(env, s, r, states[s], seen[s])
  }

  /** One round over all shards; it leaves work only if there may be another round. */
  method ScanRound(env: Environment, shards: nat, r: nat, perLock: nat, from: seq<nat>, shown: seq<seq<Node>>)
    returns (states: seq<nat>, seen: seq<seq<Node>>, remaining: bool)
    requires perLock > 0 && Growing(env, shards) && AllInStep(env, shards, r, from, shown)
    ensures AllInStep(env, shards, r + 1, states, seen)
    ensures remaining || forall s :: 0 <= s < shards ==> states[s] == DONE
    ensures remaining ==> r + 1 < Pow2(MAX_BITS)
  {
    states, seen, remaining := from, shown, false;
    for i := 0 to shards
      invariant |states| == |seen| == shards
      invariant forall s :: 0 <= s < i ==> InStep(env, s, r + 1, states[s], seen[s])
      invariant forall s :: i <= s < shards ==> states[s] == from[s] && seen[s] == shown[s]
      invariant remaining || forall s :: 0 <= s < i ==> states[s] == DONE
      invariant remaining ==> r + 1 < Pow2(MAX_BITS)
    {
      var next, all := ScanShard(env, shards, i, r, perLock, states[i], seen[i]);
      states, seen := states[i := next], seen[i := all];
      remaining := remaining || next != DONE;
    }
  }

  ghost predicate ShownOnce(env: Environment, s: nat, seen: seq<Node>) {
    forall n: Node :: n.tag.hash < Pow2(HASH_BITS) ==>
      multiset(seen)[n] <= 1 && (Stays(env, s, n) ==> multiset(seen)[n] == 1)
  }

  lemma DoneShowsOnce(env: Environment, s: nat, r: nat, seen: seq<Node>)
    requires InStep(env, s, r, DONE, seen)
    ensures ShownOnce(env, s, seen)
  {
    forall n: Node | n.tag.hash < Pow2(HASH_BITS)
      ensures multiset(seen)[n] <= 1 && (Stays(env, s, n) ==> multiset(seen)[n] == 1)
    {
      PlaceInRange(n.tag.hash);
    }
  }

  lemma StartsInStep(env: Environment, shards: nat, s: nat)
    requires Growing(env, shards) && s < shards
    ensures InStep(env, s, 0, 0, [])
  {
    assert Good(env(s, 0));
    ZeroIsAligned(env(s, 0).bits);
  }

  lemma ZeroIsAligned(bits: nat)
    requires bits <= HASH_BITS
    ensures Aligned(0, bits) && 0 < Pow2(STATE_BITS)
  {
  }

  /** A scan that is not at its end moves on exactly when its share of entries per lock is positive: with a
      share of zero, which the minimum in ApplyToAllEntries lets through, it would never end. */
  lemma AdvancesExactlyWithPositiveShare(bits: nat, state: nat, perLock: nat)
    requires 0 < bits <= MAX_BITS && Aligned(state, bits) && state < Pow2(STATE_BITS)
    ensures NextState(bits, state, perLock) != state <==> perLock > 0
  {
    ScanBounds(bits, state, if perLock > 0 then perLock else 1);
    Pow2Splits(bits, STATE_BITS - bits);
    EvenIsNotDone(state, state / Span(bits), Pow2(STATE_BITS - bits - 1));
  }

  /** The state of one shard's scan after `r` rounds, with tables of `bits(0)`, `bits(1)` and so on. */
  function StateAfter(bits: nat -> nat, perLock: nat, r: nat): int
    requires forall k :: bits(k) <= HASH_BITS
  {
    if r == 0 then 0
    else
      var state := StateAfter(bits, perLock, r - 1);
      if state < 0 then state else NextState(bits(r - 1), state, perLock)
  }

  /** With a share of zero no number of rounds gets a scan anywhere, however the table grows. */
  lemma {:induction false} ZeroShareNeverEnds(bits: nat -> nat, r: nat)
    requires forall k :: 0 < bits(k) <= MAX_BITS
    ensures StateAfter(bits, 0, r) == 0
    decreases r
  {
    if r > 0 {
      ZeroShareNeverEnds(bits, r - 1);
      ZeroIsAligned(bits(r - 1));
      AdvancesExactlyWithPositiveShare(bits(r - 1), 0, 0);
    }
  }
}
