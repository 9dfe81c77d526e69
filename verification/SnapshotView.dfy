/** What an iterator over one snapshot should show, stated without any cursor.

    For each user key, the versions at or below the snapshot's sequence number are taken newest
    first. A put gives its value, a deletion gives nothing, and a run of merge operands is folded
    onto the put below it, or onto nothing when a deletion or the end comes first. */
module SnapshotView {
  import opened InternalKeys
  import opened Options

  /** What a user key resolves to. `Failed` is a merge operator that reported failure. */
  datatype Resolution = Absent | Found(value: Value) | Failed

  /** One line of the view; `outcome` is never `Absent`. */
  datatype Row = Row(key: Key, outcome: Resolution)

  /** A full merge of operands, oldest first, onto an optional base value. */
  type MergeFn = (Key, Option<Value>, seq<Value>) -> Option<Value>

  /** The merge operands at the head of a newest-first version list, oldest first. */
  function Operands(vs: seq<Entry>): (ops: seq<Value>) {
    if vs == [] || !vs[0].kind.Merge? then [] else Operands(vs[1..]) + [vs[0].value]
  }

  /** The value that those operands apply to: the first version that is not an operand, if it is a put. */
  function Base(vs: seq<Entry>): (base: Option<Value>) {
    if vs == [] then None
    else if vs[0].kind.Merge? then Base(vs[1..])
    else if vs[0].kind.Put? then Some(vs[0].value)
    else None
  }

  function Merged(result: Option<Value>): Resolution {
    match result
    case Some(v) => Found(v)
    case None => Failed
  }

  /** The outcome of a user key from its visible versions, newest first. */
  function Resolve(merge: MergeFn, k: Key, vs: seq<Entry>): (r: Resolution) {
    if vs == [] || IsDeletion(vs[0].kind) then Absent
    else if vs[0].kind.Put? then Found(vs[0].value)
    else Merged(merge(k, Base(vs), Operands(vs)))
  }

  /** Everything that fixes what an iterator shows. */
  datatype Snapshot = Snapshot(
    entries: seq<Entry>,
    sequence: nat,
    lower: Option<Key>,
    upper: Option<Key>,
    merge: MergeFn)
  {
    ghost predicate Valid() {
      && Sorted(entries)
      && (forall i :: 0 <= i < |entries| ==> entries[i].sequence < MAX_SEQUENCE)
      && sequence <= MAX_SEQUENCE
    }

    predicate Visible(e: Entry) {
      e.sequence <= sequence
    }

    predicate InBounds(k: Key) {
      && (lower.Some? ==> lower.value <= k)
      && (upper.Some? ==> k < upper.value)
    }

    /** The visible versions of `k` among `entries[i..]`, in order. */
    function Versions(i: nat, k: Key): (vs: seq<Entry>)
      requires i <= |entries|
      decreases |entries| - i
    {
      if i == |entries| then []
      else if entries[i].key == k && Visible(entries[i]) then [entries[i]] + Versions(i + 1, k)
      else Versions(i + 1, k)
    }

    function Outcome(k: Key): Resolution {
      Resolve(merge, k, Versions(0, k))
    }

    /** In bounds and not absent: the keys that the iterator has to stop at. */
    predicate Live(k: Key) {
      InBounds(k) && !Outcome(k).Absent?
    }

    /** The view of `entries[i..]`: a row at the first entry of every live user key. */
    function RowsFrom(i: nat): (rows: seq<Row>)
      requires i <= |entries|
      decreases |entries| - i
    {
      if i == |entries| then []
      else if (i == 0 || entries[i - 1].key != entries[i].key) && Live(entries[i].key)
      then [Row(entries[i].key, Outcome(entries[i].key))] + RowsFrom(i + 1)
      else RowsFrom(i + 1)
    }

    function Rows(): seq<Row> {
      RowsFrom(0)
    }

    /** No live key in `[lo, hi)`. */
    ghost predicate Quiet(lo: Key, hi: Key) {
      forall k :: lo <= k < hi ==> !Live(k)
    }

    /** The versions are one stretch of a sorted list. */
    lemma {:induction false} VersionsAreSlice(i: nat, k: Key, a: nat, b: nat)
      requires i <= |entries| && a <= b <= |entries|
      requires forall j :: 0 <= j < |entries| ==>
        ((entries[j].key == k && Visible(entries[j])) <==> a <= j < b)
      ensures Versions(i, k) == if i >= b then [] else if i <= a then entries[a..b] else entries[i..b]
      decreases |entries| - i
    {
      if i < |entries| {
        VersionsAreSlice(i + 1, k, a, b);
        if a <= i < b {
          assert entries[i..b] == [entries[i]] + entries[i + 1..b];
        }
      }
    }

    /** A key without a visible version is not live. */
    lemma {:induction false} UnseenIsDead(k: Key)
      requires forall j :: 0 <= j < |entries| ==> entries[j].key == k ==> !Visible(entries[j])
      ensures Versions(0, k) == [] && !Live(k)
    {
      VersionsAreSlice(0, k, 0, 0);
    }

    /** Rows come in strictly increasing key order, each from an entry at or after `i`. */
    lemma {:induction false} RowsSorted(i: nat)
      requires Valid() && i <= |entries|
      ensures forall r :: 0 <= r < |RowsFrom(i)| ==>
        Live(RowsFrom(i)[r].key) && RowsFrom(i)[r].outcome == Outcome(RowsFrom(i)[r].key)
      ensures forall r :: 0 <= r < |RowsFrom(i)| && 0 < i < |entries| && entries[i - 1].key == entries[i].key ==>
        entries[i].key < RowsFrom(i)[r].key
      ensures forall r :: 0 <= r < |RowsFrom(i)| && 0 < i ==> entries[i - 1].key < RowsFrom(i)[r].key
      ensures forall r, s :: 0 <= r < s < |RowsFrom(i)| ==> RowsFrom(i)[r].key < RowsFrom(i)[s].key
      decreases |entries| - i
    {
      if i < |entries| {
        RowsSorted(i + 1);
      }
    }

    /** Every live key has its row. */
    lemma {:induction false} RowsComplete(i: nat, j: nat)
      requires Valid() && i <= j < |entries|
      requires j == 0 || entries[j - 1].key != entries[j].key
      requires Live(entries[j].key)
      ensures exists r :: 0 <= r < |RowsFrom(i)| && RowsFrom(i)[r].key == entries[j].key
      decreases j - i
    {
      if i == j {
        assert RowsFrom(i)[0].key == entries[j].key;
      } else {
        RowsComplete(i + 1, j);
        var r :| 0 <= r < |RowsFrom(i + 1)| && RowsFrom(i + 1)[r].key == entries[j].key;
        var shift := |RowsFrom(i)| - |RowsFrom(i + 1)|;
        assert RowsFrom(i)[r + shift].key == entries[j].key;
      }
    }

    /** The first entry whose user key is at least `k`. */
    ghost function FirstOf(k: Key): (p: nat)
      requires Valid()
      ensures p <= |entries|
      ensures forall i :: 0 <= i < p ==> entries[i].key < k
      ensures forall i :: p <= i < |entries| ==> k <= entries[i].key
    {
      SeekPosition(entries, Target(k, MAX_SEQUENCE, SEEK_TYPE))
    }

    /** The first entry whose user key is above `k`. */
    ghost function EndOf(k: Key): (p: nat)
      requires Valid()
      ensures FirstOf(k) <= p <= |entries|
      ensures forall i :: 0 <= i < p ==> entries[i].key <= k
      ensures forall i :: p <= i < |entries| ==> k < entries[i].key
      ensures forall i :: 0 <= i < |entries| ==> (entries[i].key == k <==> FirstOf(k) <= i < p)
    {
      var p := FirstOf(k + 1);
      assert p < |entries| ==> k < entries[p].key;
      p
    }

    /** `Operands`, `Base` and `Resolve` of the entries `[i, b)`. */
    ghost function OperandsIn(i: nat, b: nat): seq<Value>
      requires i <= b <= |entries|
      decreases b - i
    {
      if i == b || !entries[i].kind.Merge? then [] else OperandsIn(i + 1, b) + [entries[i].value]
    }

    ghost function BaseIn(i: nat, b: nat): Option<Value>
      requires i <= b <= |entries|
      decreases b - i
    {
      if i == b then None
      else if entries[i].kind.Merge? then BaseIn(i + 1, b)
      else if entries[i].kind.Put? then Some(entries[i].value)
      else None
    }

    ghost function OutcomeIn(k: Key, i: nat, b: nat): Resolution
      requires i <= b <= |entries|
    {
      if i == b || IsDeletion(entries[i].kind) then Absent
      else if entries[i].kind.Put? then Found(entries[i].value)
      else Merged(merge(k, BaseIn(i, b), OperandsIn(i, b)))
    }

    lemma {:induction false} FoldOfSlice(i: nat, b: nat)
      requires i <= b <= |entries|
      ensures OperandsIn(i, b) == Operands(entries[i..b])
      ensures BaseIn(i, b) == Base(entries[i..b])
      decreases b - i
    {
      if i < b {
        assert entries[i..b][1..] == entries[i + 1..b];
        FoldOfSlice(i + 1, b);
      }
    }

    /** The newest visible entry of `k`, or the end of its entries when none is visible. */
    ghost function NewestOf(k: Key): (p: nat)
      requires Valid()
      ensures FirstOf(k) <= p <= EndOf(k)
      ensures forall i :: FirstOf(k) <= i < p ==> !Visible(entries[i])
      ensures forall i :: p <= i < EndOf(k) ==> Visible(entries[i])
    {
      var p := SeekPosition(entries, Target(k, sequence, SEEK_TYPE));
      assert p < |entries| ==> k <= entries[p].key;
      assert 0 < p ==> entries[p - 1].key <= k;
      p
    }

    /** The outcome of a key read off its own stretch of entries. */
    ghost function OutcomeAt(k: Key): Resolution
      requires Valid()
    {
      OutcomeIn(k, NewestOf(k), EndOf(k))
    }

    /** Reading a key's stretch is resolving its visible versions. */
    lemma {:induction false} OutcomeFromStretch(k: Key)
      requires Valid()
      ensures OutcomeAt(k) == Outcome(k)
    {
      VersionsAreSlice(0, k, NewestOf(k), EndOf(k));
      FoldOfSlice(NewestOf(k), EndOf(k));
    }

    /** A visible entry with no visible entry of its key before it is the newest one. */
    lemma {:induction false} NewestVisible(k: Key, p: nat)
      requires Valid() && p < |entries| && entries[p].key == k && Visible(entries[p])
      requires forall i :: 0 <= i < p && entries[i].key == k ==> !Visible(entries[i])
      ensures NewestOf(k) == p
    {
      assert NewestOf(k) <= p && Visible(entries[NewestOf(k)]);
    }

    /** `p` is the last entry whose user key is below `k`, or past the end when there is none. */
    ghost predicate IsBefore(p: nat, k: Key)
      requires Valid()
    {
      p == if FirstOf(k) == 0 then |entries| else FirstOf(k) - 1
    }

    /** `p` is one of the entries of `k`, or just before them, or after them. */
    ghost predicate IsNear(p: nat, k: Key)
      requires Valid()
    {
      p <= |entries| && if p == |entries| then FirstOf(k) == 0 else FirstOf(k) <= p + 1
    }

    /** `p` is the last entry of a key below `top`, and no live key lies between that key and `top`. */
    ghost predicate IsReady(p: nat, top: Key)
      requires Valid()
    {
      && p <= |entries|
      && (if p == |entries| then forall k :: k < top ==> !Live(k)
          else entries[p].key < top && p + 1 == EndOf(entries[p].key) && Quiet(entries[p].key + 1, top))
    }

    /** From just before a key's entries, a backward search may go on below that key. */
    lemma {:induction false} BeforeIsReady(p: nat, k: Key, top: Key)
      requires Valid() && IsBefore(p, k) && k <= top && Quiet(k, top)
      ensures IsReady(p, top)
    {
      assert p < |entries| - 1 ==> k <= entries[p + 1].key;
      forall d | d < k && (p == |entries| || entries[p].key < d)
        ensures !Live(d)
      {
        UnseenIsDead(d);
      }
    }

    /** Keys from `low` up to the entry at `p` are dead when all their entries so far are invisible. */
    lemma {:induction false} PassedKeysAreDead(low: Key, p: nat)
      requires Valid() && p < |entries|
      requires forall i :: 0 <= i < p ==> entries[i].key < low || !Visible(entries[i])
      ensures Quiet(low, entries[p].key)
    {
      forall k | low <= k < entries[p].key
        ensures !Live(k)
      {
        UnseenIsDead(k);
      }
    }

    /** Nothing at or above `low` is live once the entries run out or the upper bound is met. */
    lemma {:induction false} NothingAbove(low: Key, p: nat)
      requires Valid() && p <= |entries|
      requires p < |entries| ==> upper.Some? && upper.value <= entries[p].key
      requires forall i :: 0 <= i < p ==> entries[i].key < low || !Visible(entries[i])
      ensures forall k :: low <= k ==> !Live(k)
    {
      forall k | low <= k
        ensures !Live(k)
      {
        if p == |entries| || k < entries[p].key {
          UnseenIsDead(k);
        }
      }
    }

    /** A live key is a row, and the rows below it are those below any key that no live key separates. */
    lemma {:induction false} LiveRow(f: Key, k: Key)
      requires Valid() && Live(k) && f <= k && Quiet(f, k)
      ensures RowsOrdered(Rows())
      ensures CountBelow(Rows(), f) == CountBelow(Rows(), k) < |Rows()|
      ensures Rows()[CountBelow(Rows(), k)] == Row(k, Outcome(k))
    {
      RowsSorted(0);
      CountBelowSplits(Rows(), f);
      CountBelowSplits(Rows(), k);
      var j := FirstEntry(k);
      RowsComplete(0, j);
      var r :| 0 <= r < |Rows()| && Rows()[r].key == k;
      if 0 < r {
        assert Rows()[r - 1].key < k && Live(Rows()[r - 1].key);
      }
    }

    /** Past the last live key the count is the number of rows. */
    lemma {:induction false} NoRowAbove(f: Key)
      requires Valid() && forall k :: f <= k ==> !Live(k)
      ensures CountBelow(Rows(), f) == |Rows()|
    {
      RowsSorted(0);
      CountBelowSplits(Rows(), f);
    }

    /** Before the first live key it is zero. */
    lemma {:induction false} NoRowBelow(t: Key)
      requires Valid() && forall k :: k < t ==> !Live(k)
      ensures CountBelow(Rows(), t) == 0
    {
      RowsSorted(0);
      CountBelowSplits(Rows(), t);
      if Rows() != [] {
        assert Live(Rows()[0].key);
      }
    }

    /** The last row below `t`. */
    lemma {:induction false} LastRowBelow(k: Key, t: Key)
      requires Valid() && Live(k) && k < t && Quiet(k + 1, t)
      ensures CountBelow(Rows(), t) == CountBelow(Rows(), k) + 1
      ensures CountBelow(Rows(), k) < |Rows()| && Rows()[CountBelow(Rows(), k)] == Row(k, Outcome(k))
    {
      LiveRow(k, k);
      RowsSorted(0);
      CountBelowSplits(Rows(), t);
      CountBelowSplits(Rows(), k);
      var c := CountBelow(Rows(), k);
      if c + 1 < |Rows()| {
        assert Live(Rows()[c + 1].key);
      }
    }

    /** A live key has a first entry. */
    lemma {:induction false} FirstEntry(k: Key) returns (j: nat)
      requires Valid() && Live(k)
      ensures j < |entries| && entries[j].key == k && (j == 0 || entries[j - 1].key != k)
    {
      if forall i :: 0 <= i < |entries| ==> entries[i].key != k {
        UnseenIsDead(k);
      }
      j :| 0 <= j < |entries| && entries[j].key == k;
      while 0 < j && entries[j - 1].key == k
        invariant 0 <= j < |entries| && entries[j].key == k
      {
        j := j - 1;
      }
    }
  }

  /** How many rows have a key below `k`: the index of the first row at or above `k`. */
  function CountBelow(rows: seq<Row>, k: Key): (n: nat)
    ensures n <= |rows|
  {
    if rows == [] then 0
    else CountBelow(rows[..|rows| - 1], k) + (if rows[|rows| - 1].key < k then 1 else 0)
  }

  ghost predicate RowsOrdered(rows: seq<Row>) {
    forall r, s :: 0 <= r < s < |rows| ==> rows[r].key < rows[s].key
  }

  /** On ordered rows the count splits them into those below and those not below. */
  lemma {:induction false} CountBelowSplits(rows: seq<Row>, k: Key)
    requires RowsOrdered(rows)
    ensures forall r :: 0 <= r < CountBelow(rows, k) ==> rows[r].key < k
    ensures forall r :: CountBelow(rows, k) <= r < |rows| ==> k <= rows[r].key
  {
    if rows != [] {
      CountBelowSplits(rows[..|rows| - 1], k);
      if rows[|rows| - 1].key < k && CountBelow(rows[..|rows| - 1], k) < |rows| - 1 {
        assert rows[|rows| - 2].key < rows[|rows| - 1].key;
        assert rows[..|rows| - 1][|rows| - 2].key == rows[|rows| - 2].key;
      }
    }
  }

  /** The iterator that the documentation gives as its example, over AAA, BBB and BBC. */
  lemma DocumentedExample(merge: MergeFn, sequence: nat)
    requires sequence == 102 || sequence == 96
    ensures var es := [
        Entry(1, 100, Put, "v3"), Entry(1, 97, Put, "v2"), Entry(1, 95, Put, "v1"),
        Entry(2, 90, Put, "v1"), Entry(3, 98, Deletion, ""), Entry(3, 95, Put, "v1")];
      Snapshot(es, sequence, None, None, merge).Rows() ==
        if sequence == 102 then [Row(1, Found("v3")), Row(2, Found("v1"))]
        else [Row(1, Found("v1")), Row(2, Found("v1")), Row(3, Found("v1"))]
  {
    var es := [
      Entry(1, 100, Put, "v3"), Entry(1, 97, Put, "v2"), Entry(1, 95, Put, "v1"),
      Entry(2, 90, Put, "v1"), Entry(3, 98, Deletion, ""), Entry(3, 95, Put, "v1")];
    var src := Snapshot(es, sequence, None, None, merge);
    src.VersionsAreSlice(0, 1, if sequence == 102 then 0 else 2, 3);
    src.VersionsAreSlice(0, 2, 3, 4);
    src.VersionsAreSlice(0, 3, if sequence == 102 then 4 else 5, 6);
    assert src.RowsFrom(6) == [];
    assert src.RowsFrom(5) == [];
    assert src.RowsFrom(4) == if sequence == 102 then [] else [Row(3, Found("v1"))];
    assert src.RowsFrom(3) == [Row(2, Found("v1"))] + src.RowsFrom(4);
    assert src.RowsFrom(2) == src.RowsFrom(3);
    assert src.RowsFrom(1) == src.RowsFrom(3);
  }
}
