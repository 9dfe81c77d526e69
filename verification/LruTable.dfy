/** LRUHandleTable: a chained hash table indexed by the upper bits of a 32-bit hash, which doubles when
    it holds as many entries as it has chains. */
module LruTable {
  import opened Arithmetic
  import opened Options
  import opened CacheTypes

  const HASH_BITS: nat := 32

  /** Resize stops at tables of 2 to this many chains. */
  const MAX_BITS: nat := 31

  /** What an entry is looked up by: its hash and its key. */
  datatype Tag = Tag(hash: nat, key: Key)

  datatype Node = Node(tag: Tag, id: nat)

  /** How many hashes share a chain. */
  function Width(bits: nat): (w: nat)
    requires bits <= HASH_BITS
    ensures w > 0
  {
    Pow2(HASH_BITS - bits)
  }

  /** `hash >> (32 - bits)`. */
  function Chain(hash: nat, bits: nat): int
    requires bits <= HASH_BITS
  {
    hash / Width(bits)
  }

  lemma ChainInRange(hash: nat, bits: nat)
    requires bits <= HASH_BITS && hash < Pow2(HASH_BITS)
    ensures 0 <= Chain(hash, bits) < Pow2(bits)
  {
    Pow2Splits(bits, HASH_BITS - bits);
    QuotientInRange(hash, Pow2(bits), Width(bits));
  }

  function ChainSet(chain: seq<Node>): set<Node> {
    set n | n in chain
  }

  /** All nodes of the chains. */
  ghost function Nodes(chains: seq<seq<Node>>): set<Node> {
    if chains == [] then {} else Nodes(chains[..|chains| - 1]) + ChainSet(chains[|chains| - 1])
  }

  lemma {:induction false} NodesMember(chains: seq<seq<Node>>, n: Node)
    ensures n in Nodes(chains) <==> exists b :: 0 <= b < |chains| && n in chains[b]
  {
    if chains != [] {
      var last := |chains| - 1;
      NodesMember(chains[..last], n);
      if n in Nodes(chains[..last]) {
        var b :| 0 <= b < last && n in chains[..last][b];
        assert n in chains[b];
      }
      if exists b :: 0 <= b < |chains| && n in chains[b] {
        var b :| 0 <= b < |chains| && n in chains[b];
        if b < last {
          assert n in chains[..last][b];
        }
      }
    }
  }

  /** How many nodes the chains hold. */
  function Total(chains: seq<seq<Node>>): nat {
    if chains == [] then 0 else Total(chains[..|chains| - 1]) + |chains[|chains| - 1]|
  }

  lemma {:induction false} TotalAfterUpdate(chains: seq<seq<Node>>, b: nat, chain: seq<Node>)
    requires b < |chains|
    ensures Total(chains[b := chain]) == Total(chains) - |chains[b]| + |chain|
  {
    var last := |chains| - 1;
    if b == last {
      assert chains[b := chain][..last] == chains[..last];
    } else {
      TotalAfterUpdate(chains[..last], b, chain);
      assert chains[b := chain][..last] == chains[..last][b := chain];
    }
  }

  ghost predicate NoRepeats(chain: seq<Node>) {
    forall i, j :: 0 <= i < j < |chain| ==> chain[i].tag != chain[j].tag
  }

  /** Every chain holds only nodes that hash to it, and no tag twice. */
  ghost predicate Sound(chains: seq<seq<Node>>, bits: nat) {
    && bits <= HASH_BITS && |chains| == Pow2(bits)
    && (forall b, i :: 0 <= b < |chains| && 0 <= i < |chains[b]| ==>
          chains[b][i].tag.hash < Pow2(HASH_BITS) && Chain(chains[b][i].tag.hash, bits) == b)
    && (forall b :: 0 <= b < |chains| ==> NoRepeats(chains[b]))
  }

  /** The chains hold exactly the entries of the map. */
  ghost predicate Represents(chains: seq<seq<Node>>, model: map<Tag, nat>) {
    forall n :: n in Nodes(chains) <==> n.tag in model && model[n.tag] == n.id
  }

  /** A node of the table is in the chain that its hash selects, and nowhere else. */
  lemma {:induction false} NodeIsInItsChain(chains: seq<seq<Node>>, bits: nat, n: Node)
    requires Sound(chains, bits) && n.tag.hash < Pow2(HASH_BITS)
    ensures 0 <= Chain(n.tag.hash, bits) < |chains|
    ensures n in Nodes(chains) <==> n in chains[Chain(n.tag.hash, bits)]
  {
    ChainInRange(n.tag.hash, bits);
    NodesMember(chains, n);
  }

  /** Changing one chain changes the nodes of that chain. */
  lemma {:induction false} NodesAfterUpdate(chains: seq<seq<Node>>, b: nat, chain: seq<Node>, n: Node)
    requires b < |chains|
    ensures n in Nodes(chains[b := chain]) <==>
      n in chain || exists c :: 0 <= c < |chains| && c != b && n in chains[c]
  {
    var cs := chains[b := chain];
    NodesMember(cs, n);
    if n in chain {
      assert n in cs[b];
    }
    if exists c :: 0 <= c < |chains| && c != b && n in chains[c] {
      var c :| 0 <= c < |chains| && c != b && n in chains[c];
      assert n in cs[c];
    }
  }

  /** Other chains do not hold the tag. */
  lemma {:induction false} OnlyInItsChain(chains: seq<seq<Node>>, bits: nat, b: nat, n: Node)
    requires Sound(chains, bits) && n.tag.hash < Pow2(HASH_BITS) && b == Chain(n.tag.hash, bits) < |chains|
    ensures forall c :: 0 <= c < |chains| && c != b ==> n !in chains[c]
  {
  }

  /** A chain with the node put in the place of the node with its tag, or at the end. */
  function Put(chain: seq<Node>, p: nat, n: Node): seq<Node>
    requires p <= |chain|
  {
    if p < |chain| then chain[p := n] else chain + [n]
  }

  /** The place of a tag in a chain: the node that has it, or the end if none does. */
  ghost predicate IsPlace(chain: seq<Node>, p: nat, tag: Tag) {
    && p <= |chain|
    && (p < |chain| ==> chain[p].tag == tag)
    && (p == |chain| ==> forall i :: 0 <= i < p ==> chain[i].tag != tag)
  }

  lemma {:induction false} PutMember(chain: seq<Node>, p: nat, n: Node, x: Node)
    requires NoRepeats(chain) && IsPlace(chain, p, n.tag)
    ensures NoRepeats(Put(chain, p, n))
    ensures x in Put(chain, p, n) <==> x == n || (x in chain && x.tag != n.tag)
  {
    assert Put(chain, p, n)[p] == n;
    if x in chain && x.tag != n.tag {
      var i :| 0 <= i < |chain| && chain[i] == x;
      assert Put(chain, p, n)[i] == x;
    }
  }

  lemma {:induction false} PutKeepsSound(chains: seq<seq<Node>>, bits: nat, b: nat, p: nat, n: Node)
    requires Sound(chains, bits) && n.tag.hash < Pow2(HASH_BITS)
    requires b == Chain(n.tag.hash, bits) < |chains| && IsPlace(chains[b], p, n.tag)
    ensures Sound(chains[b := Put(chains[b], p, n)], bits)
  {
    PutMember(chains[b], p, n, n);
  }

  lemma {:induction false} PutRepresents(
    chains: seq<seq<Node>>, bits: nat, model: map<Tag, nat>, b: nat, p: nat, n: Node)
    requires Sound(chains, bits) && Represents(chains, model)
    requires n.tag.hash < Pow2(HASH_BITS) && b == Chain(n.tag.hash, bits) < |chains| && IsPlace(chains[b], p, n.tag)
    ensures Sound(chains[b := Put(chains[b], p, n)], bits)
    ensures Represents(chains[b := Put(chains[b], p, n)], model[n.tag := n.id])
    ensures p < |chains[b]| <==> n.tag in model
  {
    var chain := Put(chains[b], p, n);
    PutKeepsSound(chains, bits, b, p, n);
    forall x: Node
      ensures x in Nodes(chains[b := chain]) <==> x.tag in model[n.tag := n.id] && model[n.tag := n.id][x.tag] == x.id
    {
      NodesAfterUpdate(chains, b, chain, x);
      NodesMember(chains, x);
      PutMember(chains[b], p, n, x);
      if x.tag == n.tag {
        OnlyInItsChain(chains, bits, b, x);
      }
    }
    TagInChain(chains, bits, model, b, n.tag);
  }

  /** A tag is in the map exactly when its chain has a node with it. */
  lemma {:induction false} TagInChain(chains: seq<seq<Node>>, bits: nat, model: map<Tag, nat>, b: nat, tag: Tag)
    requires Sound(chains, bits) && Represents(chains, model)
    requires tag.hash < Pow2(HASH_BITS) && b == Chain(tag.hash, bits) < |chains|
    ensures tag in model <==> exists i :: 0 <= i < |chains[b]| && chains[b][i].tag == tag
    ensures forall i :: 0 <= i < |chains[b]| && chains[b][i].tag == tag ==>
      tag in model && model[tag] == chains[b][i].id
  {
    if tag in model {
      var n := Node(tag, model[tag]);
      NodeIsInItsChain(chains, bits, n);
      var i :| 0 <= i < |chains[b]| && chains[b][i] == n;
    }
    forall i | 0 <= i < |chains[b]| && chains[b][i].tag == tag
      ensures tag in model && model[tag] == chains[b][i].id
    {
      NodesMember(chains, chains[b][i]);
    }
  }

  function Cut(chain: seq<Node>, p: nat): seq<Node>
    requires p < |chain|
  {
    chain[..p] + chain[p + 1..]
  }

  lemma {:induction false} CutMember(chain: seq<Node>, p: nat, x: Node)
    requires NoRepeats(chain) && p < |chain|
    ensures NoRepeats(Cut(chain, p))
    ensures x in Cut(chain, p) <==> x in chain && x.tag != chain[p].tag
  {
    if x in chain && x.tag != chain[p].tag {
      var i :| 0 <= i < |chain| && chain[i] == x;
      assert Cut(chain, p)[if i < p then i else i - 1] == x;
    }
  }

  lemma {:induction false} CutKeepsSound(chains: seq<seq<Node>>, bits: nat, b: nat, p: nat)
    requires Sound(chains, bits) && b < |chains| && p < |chains[b]|
    ensures Sound(chains[b := Cut(chains[b], p)], bits)
  {
    CutMember(chains[b], p, chains[b][p]);
  }

  lemma {:induction false} CutRepresents(chains: seq<seq<Node>>, bits: nat, model: map<Tag, nat>, b: nat, p: nat)
    requires Sound(chains, bits) && Represents(chains, model)
    requires b < |chains| && p < |chains[b]|
    ensures chains[b][p].tag in model
    ensures Sound(chains[b := Cut(chains[b], p)], bits)
    ensures Represents(chains[b := Cut(chains[b], p)], model - {chains[b][p].tag})
  {
    var n, chain := chains[b][p], Cut(chains[b], p);
    CutKeepsSound(chains, bits, b, p);
    forall x: Node
      ensures x in Nodes(chains[b := chain]) <==> x.tag in model - {n.tag} && model[x.tag] == x.id
    {
      NodesAfterUpdate(chains, b, chain, x);
      NodesMember(chains, x);
      CutMember(chains[b], p, x);
      if x.tag == n.tag {
        OnlyInItsChain(chains, bits, b, x);
      }
    }
    NodesMember(chains, n);
  }

  /** The first `i` chains and `k` nodes of the next one have been moved to the new chains. */
  ghost predicate Moved(chains: seq<seq<Node>>, i: nat, k: nat, fresh': seq<seq<Node>>) {
    && i <= |chains| && (if i == |chains| then k == 0 else k <= |chains[i]|)
    && forall n :: n in Nodes(fresh') <==> n in Nodes(chains[..i]) || (i < |chains| && n in chains[i][..k])
  }

  /** A node at the head of its new chain. */
  lemma {:induction false} PushKeepsSound(chains: seq<seq<Node>>, bits: nat, n: Node)
    requires Sound(chains, bits) && n.tag.hash < Pow2(HASH_BITS)
    requires var j := Chain(n.tag.hash, bits);
      0 <= j < |chains| && forall i :: 0 <= i < |chains[j]| ==> chains[j][i].tag != n.tag
    ensures var j := Chain(n.tag.hash, bits); Sound(chains[j := [n] + chains[j]], bits)
  {
  }

  lemma {:induction false} PushAddsNode(chains: seq<seq<Node>>, i: nat, k: nat, fresh': seq<seq<Node>>, j: nat)
    requires Moved(chains, i, k, fresh') && i < |chains| && k < |chains[i]| && j < |fresh'|
    ensures Moved(chains, i, k + 1, fresh'[j := [chains[i][k]] + fresh'[j]])
  {
    var n := chains[i][k];
    var chain := [n] + fresh'[j];
    assert chains[i][..k + 1] == chains[i][..k] + [n];
    forall x: Node
      ensures x in Nodes(fresh'[j := chain]) <==> x in Nodes(chains[..i]) || x in chains[i][..k + 1]
    {
      NodesAfterUpdate(fresh', j, chain, x);
      NodesMember(fresh', x);
      assert x in chain <==> x == n || x in fresh'[j];
      assert x in chains[i][..k + 1] <==> x in chains[i][..k] || x == n;
    }
  }

  /** Moving the next node of a chain to the head of its new chain. */
  lemma {:induction false} MoveNode(
    chains: seq<seq<Node>>, bits: nat, model: map<Tag, nat>, i: nat, k: nat, fresh': seq<seq<Node>>)
    requires bits < HASH_BITS && Sound(chains, bits) && Represents(chains, model)
    requires Sound(fresh', bits + 1) && Moved(chains, i, k, fresh') && i < |chains| && k < |chains[i]|
    ensures var n := chains[i][k];
      var j := Chain(n.tag.hash, bits + 1);
      && 0 <= j < |fresh'|
      && Sound(fresh'[j := [n] + fresh'[j]], bits + 1)
      && Moved(chains, i, k + 1, fresh'[j := [n] + fresh'[j]])
  {
    var n := chains[i][k];
    var j := Chain(n.tag.hash, bits + 1);
    ChainInRange(n.tag.hash, bits + 1);
    forall x | 0 <= x < |fresh'[j]|
      ensures fresh'[j][x].tag != n.tag
    {
      NotMovedYet(chains, bits, model, i, k, fresh', j, fresh'[j][x]);
    }
    PushKeepsSound(fresh', bits + 1, n);
    PushAddsNode(chains, i, k, fresh', j);
  }

  lemma {:induction false} NotMovedYet(
    chains: seq<seq<Node>>, bits: nat, model: map<Tag, nat>, i: nat, k: nat, fresh': seq<seq<Node>>, j: nat, m: Node)
    requires Sound(chains, bits) && Represents(chains, model)
    requires Moved(chains, i, k, fresh') && i < |chains| && k < |chains[i]|
    requires j < |fresh'| && m in fresh'[j]
    ensures m.tag != chains[i][k].tag
  {
    var n := chains[i][k];
    NodesMember(fresh', m);
    NodesMember(chains, n);
    NodesMember(chains, m);
    NodesMember(chains[..i], m);
    if m in Nodes(chains[..i]) {
      var c :| 0 <= c < i && m in chains[..i][c];
      assert m in chains[c];
    } else {
      var x :| 0 <= x < k && chains[i][x] == m;
    }
  }

  /** After the last node of a chain comes the first of the next. */
  lemma {:induction false} NextChain(chains: seq<seq<Node>>, i: nat, fresh': seq<seq<Node>>)
    requires i < |chains| && Moved(chains, i, |chains[i]|, fresh')
    ensures Moved(chains, i + 1, 0, fresh')
  {
    assert chains[..i + 1][..i] == chains[..i];
    assert chains[i][..|chains[i]|] == chains[i];
  }

  /** One chain of the old table goes over to the new one, node by node. */
  method MoveChain(
    before: seq<seq<Node>>, width: nat, ghost entries: map<Tag, nat>, i: nat, chains: seq<seq<Node>>, moved: nat)
    returns (newChains: seq<seq<Node>>, count: nat)
    requires width < HASH_BITS && Sound(before, width) && Represents(before, entries) && i < |before|
    requires Sound(chains, width + 1) && Moved(before, i, 0, chains)
    requires moved == Total(chains) == Total(before[..i])
    ensures Sound(newChains, width + 1) && Moved(before, i + 1, 0, newChains)
    ensures count == Total(newChains) == Total(before[..i + 1])
  {
    newChains, count := chains, moved;
    for k := 0 to |before[i]|
      invariant Sound(newChains, width + 1) && Moved(before, i, k, newChains)
      invariant count == Total(newChains) == Total(before[..i]) + k
    {
      var n := before[i][k];
      MoveNode(before, width, entries, i, k, newChains);
      var j := Chain(n.tag.hash, width + 1);
      TotalAfterUpdate(newChains, j, [n] + newChains[j]);
      newChains := newChains[j := [n] + newChains[j]];
      count := count + 1;
    }
    NextChain(before, i, newChains);
    assert before[..i + 1][..i] == before[..i];
  }

  class HandleTable {
    /** length_bits_ and list_: `Pow2(bits)` chains. */
    var bits: nat
    var chains: seq<seq<Node>>
    var elems: nat
    const maxBits: nat
    /** The map that the table stands for. */
    ghost var model: map<Tag, nat>

    ghost predicate Valid()
      reads this
    {
      && 4 <= bits <= MAX_BITS && Sound(chains, bits) && Represents(chains, model)
      && elems == |model| == Total(chains)
    }

    constructor (maxBits: nat)
      ensures Valid() && model == map[] && bits == 4
    {
      bits, elems, model := 4, 0, map[];
      this.maxBits := maxBits;
      chains := seq(Pow2(4), _ => []);
      new;
      EmptyChains(chains);
      NothingInEmptyChains(chains);
    }

    /** FindPointer: the place of the tag in its chain, or the end of the chain. */
    method FindPointer(tag: Tag) returns (b: nat, p: nat)
      requires Valid() && tag.hash < Pow2(HASH_BITS)
      ensures b == Chain(tag.hash, bits) < |chains| && IsPlace(chains[b], p, tag)
      ensures p < |chains[b]| <==> tag in model
      ensures tag in model ==> p < |chains[b]| && chains[b][p].id == model[tag]
    {
      ChainInRange(tag.hash, bits);
      b := Chain(tag.hash, bits);
      TagInChain(chains, bits, model, b, tag);
      p := 0;
      while p < |chains[b]| && chains[b][p].tag != tag
        invariant p <= |chains[b]|
        invariant forall i :: 0 <= i < p ==> chains[b][i].tag != tag
      {
        p := p + 1;
      }
    }

    method Lookup(tag: Tag) returns (found: Option<nat>)
      requires Valid() && tag.hash < Pow2(HASH_BITS)
      ensures found == if tag in model then Some(model[tag]) else None
    {
      var b, p := FindPointer(tag);
      found := if p < |chains[b]| then Some(chains[b][p].id) else None;
    }

    /** Insert: replaces the entry with the same tag and returns it, or adds one and grows if full. */
    method Insert(n: Node) returns (was: Option<nat>)
      requires Valid() && n.tag.hash < Pow2(HASH_BITS)
      modifies this
      ensures Valid() && model == old(model)[n.tag := n.id]
      ensures was == if n.tag in old(model) then Some(old(model)[n.tag]) else None
      ensures bits == old(bits) +
        if was == None && |model| >= Pow2(old(bits)) && old(bits) < maxBits && old(bits) < MAX_BITS then 1 else 0
    {
      var b, p := FindPointer(n.tag);
      was := if p < |chains[b]| then Some(chains[b][p].id) else None;
      Store(b, p, n);
      if was == None && elems >= Pow2(bits) {
        Resize();
      }
    }

    /** Put the node in its place, and count it if it is new. */
    method Store(b: nat, p: nat, n: Node)
      requires Valid() && n.tag.hash < Pow2(HASH_BITS)
      requires b == Chain(n.tag.hash, bits) < |chains| && IsPlace(chains[b], p, n.tag)
      modifies this`chains, this`model, this`elems
      ensures Valid() && model == old(model)[n.tag := n.id]
    {
      PutRepresents(chains, bits, model, b, p, n);
      TotalAfterUpdate(chains, b, Put(chains[b], p, n));
      if p == |chains[b]| {
        elems := elems + 1;
      }
      chains := chains[b := Put(chains[b], p, n)];
      model := model[n.tag := n.id];
    }

    method Remove(tag: Tag) returns (was: Option<nat>)
      requires Valid() && tag.hash < Pow2(HASH_BITS)
      modifies this
      ensures Valid() && model == old(model) - {tag} && bits == old(bits)
      ensures was == if tag in old(model) then Some(old(model)[tag]) else None
    {
      var b, p := FindPointer(tag);
      if p == |chains[b]| {
        assert model - {tag} == model;
        return None;
      }
      was := Some(chains[b][p].id);
      Discard(b, p);
    }

    /** Take the node at that place out. */
    method Discard(b: nat, p: nat)
      requires Valid() && b < |chains| && p < |chains[b]|
      modifies this`chains, this`model, this`elems
      ensures Valid() && model == old(model) - {old(chains[b][p].tag)}
    {
      CutRepresents(chains, bits, model, b, p);
      TotalAfterUpdate(chains, b, Cut(chains[b], p));
      model := model - {chains[b][p].tag};
      chains := chains[b := Cut(chains[b], p)];
      elems := elems - 1;
    }

    /** Resize: twice as many chains with the same entries, unless the hash has no more bits to give. */
    method Resize()
      requires Valid()
      modifies this`bits, this`chains
      ensures Valid()
      ensures bits == if old(bits) >= maxBits || old(bits) >= MAX_BITS then old(bits) else old(bits) + 1
    {
      if bits >= maxBits || bits >= MAX_BITS {
        return;
      }
      var before, width := chains, bits;
      var newChains: seq<seq<Node>> := seq(Pow2(width + 1), _ => []);
      EmptyChains(newChains);
      NothingInEmptyChains(newChains);
      var i, count := 0, 0;
      while i < |before|
        invariant i <= |before| && Sound(newChains, width + 1) && Moved(before, i, 0, newChains)
        invariant count == Total(newChains) == Total(before[..i])
      {
        newChains, count := MoveChain(before, width, model, i, newChains, count);
        i := i + 1;
      }
      assert before[..|before|] == before;
      assert elems == count;
      chains := newChains;
      bits := width + 1;
    }
  }

  lemma {:induction false} NothingInEmptyChains(chains: seq<seq<Node>>)
    requires forall b :: 0 <= b < |chains| ==> chains[b] == []
    ensures Total(chains) == 0
  {
    if chains != [] {
      NothingInEmptyChains(chains[..|chains| - 1]);
    }
  }

  lemma {:induction false} EmptyChains(chains: seq<seq<Node>>)
    requires forall b :: 0 <= b < |chains| ==> chains[b] == []
    ensures Nodes(chains) == {}
  {
    if chains != [] {
      EmptyChains(chains[..|chains| - 1]);
    }
  }
}
