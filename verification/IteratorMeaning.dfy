/** What the view of a snapshot and the runs of an iterator over it mean, in terms of the entries: which keys have a
    row, what it shows, and in what order merge operands are applied. */
module IteratorMeaning {
  import opened InternalKeys
  import opened Options
  import opened SnapshotView
  import opened DBIterator

  /** Of versions that start with exactly `n` merges, the operands are the values of those, the oldest first, and the
      base is the value of the next version if that is a put. */
  lemma {:induction false} FoldExactly(vs: seq<Entry>, n: nat)
    requires n <= |vs| && forall i :: 0 <= i < n ==> vs[i].kind.Merge?
    requires n < |vs| ==> !vs[n].kind.Merge?
    ensures |Operands(vs)| == n
    ensures forall j :: 0 <= j < n ==> Operands(vs)[j] == vs[n - 1 - j].value
    ensures Base(vs) == if n < |vs| && vs[n].kind.Put? then Some(vs[n].value) else None
    decreases n
  {
    if n > 0 {
      FoldExactly(vs[1..], n - 1);
    }
  }

  /** The entry at `p` is visible, and no visible entry of the key comes before it. */
  ghost predicate IsNewest(src: Snapshot, k: Key, p: nat) {
    && p < |src.entries| && src.entries[p].key == k && src.entries[p].sequence <= src.sequence
    && forall i :: 0 <= i < p && src.entries[i].key == k ==> src.entries[i].sequence > src.sequence
  }

  ghost predicate HasRow(src: Snapshot, k: Key) {
    exists r :: 0 <= r < |src.Rows()| && src.Rows()[r].key == k
  }

  /** A key has a row exactly if it is within the bounds and its newest visible entry is not a deletion; and if
      that entry is a put, the row shows its value. */
  lemma {:induction false} RowExactly(src: Snapshot, k: Key, p: nat)
    requires src.Valid() && IsNewest(src, k, p)
    ensures HasRow(src, k) <==>
      && (src.lower.Some? ==> src.lower.value <= k) && (src.upper.Some? ==> k < src.upper.value)
      && src.entries[p].kind != Deletion && src.entries[p].kind != SingleDeletion
    ensures src.entries[p].kind.Put? ==>
      forall r :: 0 <= r < |src.Rows()| && src.Rows()[r].key == k ==>
        src.Rows()[r].outcome == Found(src.entries[p].value)
  {
    src.NewestVisible(k, p);
    src.VersionsAreSlice(0, k, p, src.EndOf(k));
    src.RowsSorted(0);
    if src.Live(k) {
      src.LiveRow(k, k);
    }
  }

  /** A key without a visible entry has no row. */
  lemma NoRowForUnseen(src: Snapshot, k: Key)
    requires src.Valid()
    requires forall i :: 0 <= i < |src.entries| && src.entries[i].key == k ==> src.entries[i].sequence > src.sequence
    ensures !HasRow(src, k)
  {
    src.UnseenIsDead(k);
    src.RowsSorted(0);
  }

  /** The values of `entries[p..p + n]`, the oldest first. */
  ghost function OldestFirst(entries: seq<Entry>, p: nat, n: nat): seq<Value>
    requires p + n <= |entries|
  {
    seq(n, j requires 0 <= j < n => entries[p + n - 1 - j].value)
  }

  /** Exactly the entries `[p, p + n)` are the newest visible ones of the key, and merges. */
  ghost predicate MergesAt(src: Snapshot, k: Key, p: nat, n: nat) {
    && IsNewest(src, k, p) && 0 < n && p + n <= |src.entries|
    && (forall i :: p <= i < p + n ==> src.entries[i].key == k && src.entries[i].kind.Merge?)
    && (p + n < |src.entries| ==> src.entries[p + n].key != k || !src.entries[p + n].kind.Merge?)
  }

  /** The value of the entry below them, if it is a put of the key. */
  ghost function PutBelow(src: Snapshot, k: Key, q: nat): Option<Value> {
    if q < |src.entries| && src.entries[q].key == k && src.entries[q].kind.Put? then Some(src.entries[q].value)
    else None
  }

  lemma {:induction false} MergedSlice(entries: seq<Entry>, p: nat, n: nat, e: nat)
    requires p + n <= e <= |entries| && forall i :: p <= i < p + n ==> entries[i].kind.Merge?
    requires p + n < e ==> !entries[p + n].kind.Merge?
    ensures Operands(entries[p..e]) == OldestFirst(entries, p, n)
    ensures Base(entries[p..e]) == if p + n < e && entries[p + n].kind.Put? then Some(entries[p + n].value) else None
  {
    FoldExactly(entries[p..e], n);
  }

  lemma {:induction false} MergedVersions(src: Snapshot, k: Key, p: nat, n: nat)
    requires src.Valid() && MergesAt(src, k, p, n)
    ensures var vs := src.Versions(0, k);
      && Operands(vs) == OldestFirst(src.entries, p, n) && Base(vs) == PutBelow(src, k, p + n)
      && vs != [] && vs[0].kind.Merge?
  {
    src.NewestVisible(k, p);
    var e := src.EndOf(k);
    assert src.entries[p + n - 1].key == k;
    src.VersionsAreSlice(0, k, p, e);
    MergedSlice(src.entries, p, n, e);
  }

  /** If the newest visible entry of a key starts a stretch of exactly `n` merges, its row shows what the operator
      makes of their values, the oldest first, and of the put below them if that is what comes next. */
  lemma {:induction false} MergedRow(src: Snapshot, k: Key, p: nat, n: nat, r: nat)
    requires src.Valid() && MergesAt(src, k, p, n) && r < |src.Rows()| && src.Rows()[r].key == k
    ensures src.Rows()[r].outcome ==
      match src.merge(k, PutBelow(src, k, p + n), OldestFirst(src.entries, p, n))
      case Some(v) => Found(v)
      case None => Failed
  {
    MergedVersions(src, k, p, n);
    src.RowsSorted(0);
  }

  /** Where that is: a seek goes to the first row at or above its target, a backward seek to the last row at or
      below it, and a step to the next row or the one before. */
  lemma IndexStepMeans(rows: seq<Row>, c: int, op: Op)
    requires RowsOrdered(rows)
    ensures var n := IndexStep(rows, c, op);
      match op
      case SeekTo(t) => 0 <= n <= |rows| && forall r :: 0 <= r < |rows| ==> (r < n <==> rows[r].key < t)
      case SeekBackTo(t) => -1 <= n < |rows| && forall r :: 0 <= r < |rows| ==> (r <= n <==> rows[r].key <= t)
      case ToFirst => rows != [] ==> n == 0
      case ToLast => rows != [] ==> n == |rows| - 1
      case StepNext => 0 <= c < |rows| && rows[c].outcome.Found? ==> n == c + 1
      case StepPrev => 0 <= c < |rows| && rows[c].outcome.Found? ==> n == c - 1
  {
    match op
    case SeekTo(t) => CountBelowSplits(rows, t);
    case SeekBackTo(t) => CountBelowSplits(rows, t + 1);
    case _ =>
  }

  /** The operator that appends every operand to the base. */
  function Append(key: Key, base: Option<Value>, operands: seq<Value>): Option<Value> {
    Some((if base.Some? then base.value else "") + Joined(operands))
  }

  function Joined(operands: seq<Value>): Value {
    if operands == [] then "" else operands[0] + Joined(operands[1..])
  }

  const ENTRIES: seq<Entry> := [Entry(1, 6, Merge, "b"), Entry(1, 5, Merge, "a"), Entry(1, 4, Put, "x")]

  function Example(): Snapshot {
    Snapshot(ENTRIES, 10, None, None, Append)
  }

  lemma ExampleHasOneRow()
    ensures Example().Valid() && |Example().Rows()| == 1 && Example().Rows()[0].key == 1
  {
    var src := Example();
    RowExactly(src, 1, 0);
    src.RowsSorted(0);
    assert src.RowsFrom(3) == [];
    assert src.RowsFrom(2) == [];
    assert src.RowsFrom(1) == [];
  }

  lemma ExampleRow()
    ensures Example().Valid() && Example().Rows() == [Row(1, Found("xab"))]
  {
    var src := Example();
    ExampleHasOneRow();
    MergedRow(src, 1, 0, 2, 0);
    assert OldestFirst(ENTRIES, 0, 2) == ["a", "b"];
    assert ["a", "b"][1..] == ["b"];
    assert src.Rows()[0] == Row(1, Found("xab"));
  }

  /** A put and two merges of one key: in either direction the iterator shows the operands applied in the order in
      which they were written. */
  method MergeExample(maxSkip: nat, backward: bool) returns (it: DBIter)
    ensures it.Observation() == Shown(1, "xab")
  {
    ExampleRow();
    it := new DBIter(Example(), maxSkip, 0);
    if backward {
      it.SeekToLast();
    } else {
      it.SeekToFirst();
    }
    it.RowIndex(0);
  }
}
