/** Internal keys and the cursor that DBIter reads them through.

    An internal key is a user key, a sequence number and a value type. The order is
    increasing user key, then decreasing sequence number, then decreasing type. */
module InternalKeys {

  /** User keys under the user comparator. The comparator is any total order, and a run only
      ever compares finitely many keys, so integers stand for them. */
  type Key = int
  type Value = string

  /** The last sequence number, which no stored entry carries. */
  const MAX_SEQUENCE: nat := 0xFF_FFFF_FFFF_FFFF

  /** The stored value types that DBIter gives a meaning to here. */
  datatype Kind = Deletion | SingleDeletion | Put | Merge

  predicate IsDeletion(kind: Kind) {
    kind.Deletion? || kind.SingleDeletion?
  }

  /** The byte that stands for the type in a packed internal key. */
  function TypeByte(kind: Kind): nat {
    match kind
    case Deletion => 0x0
    case Put => 0x1
    case Merge => 0x2
    case SingleDeletion => 0x7
  }

  /** kValueTypeForSeek: the highest type, so that a seek lands on every type of a sequence number. */
  const SEEK_TYPE: nat := 0x16

  /** kValueTypeForSeekForPrev: the lowest type. */
  const SEEK_FOR_PREV_TYPE: nat := 0x0

  datatype Entry = Entry(key: Key, sequence: nat, kind: Kind, value: Value)

  /** A position to seek to; `typ` is a type byte. */
  datatype Target = Target(key: Key, sequence: nat, typ: nat)

  /** InternalKeyComparator::Compare on parsed keys: negative, zero or positive. */
  function Compare(a: Target, b: Target): int {
    if a.key != b.key then (if a.key < b.key then -1 else 1)
    else if a.sequence > b.sequence then -1
    else if a.sequence < b.sequence then 1
    else if a.typ > b.typ then -1
    else if a.typ < b.typ then 1
    else 0
  }

  /** The eight byte trailer of an encoded internal key. */
  function Pack(sequence: nat, typ: nat): nat {
    sequence * 256 + typ
  }

  /** InternalKeyComparator::Compare when one side is still encoded: one comparison of trailers. */
  function ComparePacked(a: Target, b: Target): int {
    if a.key != b.key then (if a.key < b.key then -1 else 1)
    else if Pack(a.sequence, a.typ) > Pack(b.sequence, b.typ) then -1
    else if Pack(a.sequence, a.typ) < Pack(b.sequence, b.typ) then 1
    else 0
  }

  /** The encoded and the parsed comparison agree whenever the types fit a byte, and swapping
      the sides negates the answer, so the three forms of Compare are one order. */
  lemma CompareFormsAgree(a: Target, b: Target)
    requires a.typ < 256 && b.typ < 256
    ensures ComparePacked(a, b) == Compare(a, b) == -Compare(b, a)
  {
    if a.sequence < b.sequence {
      assert (a.sequence + 1) * 256 <= b.sequence * 256;
    } else if b.sequence < a.sequence {
      assert (b.sequence + 1) * 256 <= a.sequence * 256;
    }
  }

  function Position(e: Entry): Target {
    Target(e.key, e.sequence, TypeByte(e.kind))
  }

  /** Strictly sorted: one entry per user key and sequence number, newest first within a key. */
  ghost predicate Sorted(es: seq<Entry>) {
    forall i, j :: 0 <= i < j < |es| ==>
      es[i].key < es[j].key || (es[i].key == es[j].key && es[i].sequence > es[j].sequence)
  }

  /** InternalIterator::Seek: the first entry at or after the target, `|es|` when there is none. */
  function SeekPosition(es: seq<Entry>, t: Target): (p: nat)
    requires Sorted(es)
    ensures p <= |es|
    ensures forall i :: 0 <= i < p ==> Compare(Position(es[i]), t) < 0
    ensures forall i :: p <= i < |es| ==> Compare(Position(es[i]), t) >= 0
  {
    if es == [] then 0
    else if Compare(Position(es[|es| - 1]), t) < 0 then |es|
    else SeekPosition(es[..|es| - 1], t)
  }

  /** A seek to a target that is not before the entry at `q` does not move behind `q`. */
  lemma SeekNotBehind(es: seq<Entry>, t: Target, q: nat)
    requires Sorted(es) && q < |es| && Compare(Position(es[q]), t) <= 0
    ensures q <= SeekPosition(es, t)
  {
    assert forall i :: 0 <= i < q ==> Compare(Position(es[i]), t) < 0;
  }

  /** InternalIterator::SeekForPrev: the last entry at or before the target, `|es|` when there is none. */
  function SeekForPrevPosition(es: seq<Entry>, t: Target): (p: nat)
    requires Sorted(es)
    ensures p <= |es|
    ensures p < |es| ==> Compare(Position(es[p]), t) <= 0 &&
                         forall i :: p < i < |es| ==> Compare(Position(es[i]), t) > 0
    ensures p == |es| ==> forall i :: 0 <= i < |es| ==> Compare(Position(es[i]), t) > 0
    decreases |es|
  {
    if es == [] then 0
    else if Compare(Position(es[|es| - 1]), t) <= 0 then |es| - 1
    else
      var p := SeekForPrevPosition(es[..|es| - 1], t);
      if p == |es| - 1 then |es| else p
  }
}
