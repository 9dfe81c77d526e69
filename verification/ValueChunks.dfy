/** CompressedSecondaryCache: splitting a value into chunks that fill allocator bins, and merging them. */
module ValueChunks {

  type Byte = bv8

  /** sizeof(CacheValueChunk): two words and one byte of data, padded to a multiple of eight. */
  const CHUNK_SIZE: nat := 24

  /** What a chunk takes beyond its data. */
  const OVERHEAD: nat := CHUNK_SIZE - 1

  /** The overhead of `n` chunks. */
  function Overheads(n: nat): nat {
    OVERHEAD * n
  }

  const BINS: seq<nat> := [128, 256, 512, 1024, 2048, 4096, 8192, 16384]

  /** The bytes of the chunks, one after the other. */
  function Joined(chunks: seq<seq<Byte>>): seq<Byte> {
    if chunks == [] then [] else Joined(chunks[..|chunks| - 1]) + chunks[|chunks| - 1]
  }

  lemma JoinedOneMore(chunks: seq<seq<Byte>>, c: seq<Byte>)
    ensures Joined(chunks + [c]) == Joined(chunks) + c
  {
    assert (chunks + [c])[..|chunks|] == chunks;
  }

  lemma {:induction false} JoinedPrefix(chunks: seq<seq<Byte>>, i: nat)
    requires i < |chunks|
    ensures Joined(chunks[..i + 1]) == Joined(chunks[..i]) + chunks[i]
    ensures |Joined(chunks[..i + 1])| <= |Joined(chunks)|
    decreases |chunks| - i
  {
    assert chunks[..i + 1] == chunks[..i] + [chunks[i]];
    JoinedOneMore(chunks[..i], chunks[i]);
    if i + 1 < |chunks| {
      JoinedPrefix(chunks, i + 1);
    } else {
      assert chunks[..i + 1] == chunks;
    }
  }

  /** std::upper_bound over the bins. */
  method UpperBound(size: nat) returns (k: nat)
    ensures k <= |BINS|
    ensures forall i :: 0 <= i < k ==> BINS[i] <= size
    ensures forall i :: k <= i < |BINS| ==> size < BINS[i]
  {
    k := 0;
    while k < |BINS| && BINS[k] <= size
      invariant k <= |BINS| && forall i :: 0 <= i < k ==> BINS[i] <= size
    {
      k := k + 1;
    }
  }

  /** A compressed value of this size is to be split: its allocation lies between two bins, and is at least the
      smallest bin short of the larger one. */
  ghost predicate Splits(compressed: bool, size: nat) {
    compressed && exists k :: 0 < k < |BINS| && BINS[k - 1] <= OVERHEAD + size <= BINS[k] - BINS[0]
  }

  /** The allocation for the next chunk when `size` bytes are left: all of it, or a bin that is smaller. */
  method ChunkSize(size: nat, compressed: bool) returns (allocation: nat, ghost split: bool, ghost bin: nat)
    ensures allocation > OVERHEAD || size == 0
    ensures !split ==> allocation == OVERHEAD + size
    ensures split ==> compressed && bin < |BINS| - 1 && allocation == BINS[bin] <= OVERHEAD + size
    ensures split ==> OVERHEAD + size - (allocation - OVERHEAD) < allocation
    ensures split <==> Splits(compressed, size)
  {
    var predicted := OVERHEAD + size;
    var k := UpperBound(predicted);
    if k == 0 || k == |BINS| || BINS[k] - predicted < BINS[0] || !compressed {
      return predicted, false, 0;
    }
    return BINS[k - 1], true, k - 1;
  }

  /** Every chunk but the last fills its bin, and the bins get strictly smaller. */
  ghost predicate FillsBins(chunks: seq<seq<Byte>>, bins: seq<nat>) {
    && |bins| <= |chunks| <= |bins| + 1
    && (forall i :: 0 <= i < |bins| ==> bins[i] < |BINS| - 1 && OVERHEAD + |chunks[i]| == BINS[bins[i]])
    && (forall i, j :: 0 <= i < j < |bins| ==> bins[j] < bins[i])
    && (forall i :: 0 <= i < |chunks| ==> chunks[i] != [])
  }

  lemma SmallerBin(i: nat, j: nat)
    requires i < |BINS| && j < |BINS| && BINS[i] < BINS[j]
    ensures i < j
  {
  }

  lemma BinFilled(chunks: seq<seq<Byte>>, bins: seq<nat>, c: seq<Byte>, bin: nat)
    requires FillsBins(chunks, bins) && |chunks| == |bins| && c != []
    requires bin < |BINS| - 1 && OVERHEAD + |c| == BINS[bin] && (bins != [] ==> bin < bins[|bins| - 1])
    ensures FillsBins(chunks + [c], bins + [bin])
  {
  }

  /** What is allocated for the chunks. */
  function Allocated(chunks: seq<seq<Byte>>): nat {
    if chunks == [] then 0 else Allocated(chunks[..|chunks| - 1]) + OVERHEAD + |chunks[|chunks| - 1]|
  }

  lemma AllocatedOneMore(chunks: seq<seq<Byte>>, c: seq<Byte>)
    ensures Allocated(chunks + [c]) == Allocated(chunks) + OVERHEAD + |c|
  {
    assert (chunks + [c])[..|chunks|] == chunks;
  }

  lemma {:induction false} AllocatedIsOverhead(chunks: seq<seq<Byte>>)
    ensures Allocated(chunks) == |Joined(chunks)| + Overheads(|chunks|)
  {
    if chunks != [] {
      AllocatedIsOverhead(chunks[..|chunks| - 1]);
    }
  }

  /** How far the splitting has got: after `pos` bytes, what is left is smaller than the last bin. */
  ghost predicate Progress(value: seq<Byte>, chunks: seq<seq<Byte>>, bins: seq<nat>, pos: nat) {
    && pos <= |value| && Joined(chunks) == value[..pos]
    && FillsBins(chunks, bins)
    && (pos < |value| ==> |bins| == |chunks|)
    && (pos < |value| && bins != [] ==> OVERHEAD + |value| - pos < BINS[bins[|bins| - 1]])
    && |bins| + (if bins == [] then |BINS| - 1 else bins[|bins| - 1]) < |BINS|
  }

  lemma SplitGoesOn(value: seq<Byte>, chunks: seq<seq<Byte>>, bins: seq<nat>, pos: nat, size: nat, bin: nat)
    requires Progress(value, chunks, bins, pos) && pos < |value| && pos + size <= |value|
    requires bin < |BINS| - 1 && OVERHEAD + size == BINS[bin] && OVERHEAD + |value| - pos - size < BINS[bin]
    ensures Progress(value, chunks + [value[pos..pos + size]], bins + [bin], pos + size)
  {
    var c := value[pos..pos + size];
    JoinedOneMore(chunks, c);
    if bins != [] {
      SmallerBin(bin, bins[|bins| - 1]);
    }
    BinFilled(chunks, bins, c, bin);
  }

  lemma SplitEnds(value: seq<Byte>, chunks: seq<seq<Byte>>, bins: seq<nat>, pos: nat, size: nat)
    requires Progress(value, chunks, bins, pos) && pos < |value| && pos + size == |value|
    ensures Progress(value, chunks + [value[pos..pos + size]], bins, pos + size)
  {
    JoinedOneMore(chunks, value[pos..pos + size]);
  }

  /** What holds between two chunks. */
  ghost predicate SplitSoFar(
    value: seq<Byte>, compressed: bool, chunks: seq<seq<Byte>>, total: nat, bins: seq<nat>, pos: nat)
  {
    && Progress(value, chunks, bins, pos) && total == Allocated(chunks)
    && (!compressed && chunks != [] ==> pos == |value| && |chunks| == 1)
    && (|chunks| > |bins| ==> pos == |value| && !Splits(compressed, |chunks[|chunks| - 1]|))
  }

  /** One turn of the loop: how large the next chunk is. */
  method NextChunk(
    value: seq<Byte>, compressed: bool, ghost chunks: seq<seq<Byte>>, total: nat, ghost bins: seq<nat>, pos: nat)
    returns (size: nat, allocation: nat, ghost more: seq<nat>)
    requires SplitSoFar(value, compressed, chunks, total, bins, pos) && pos < |value|
    ensures 0 < size && pos + size <= |value|
    ensures SplitSoFar(
      value, compressed, chunks + [value[pos..pos + size]], total + allocation, more, pos + size)
  {
    ghost var split, bin;
    allocation, split, bin := ChunkSize(|value| - pos, compressed);
    size := allocation - OVERHEAD;
    AllocatedOneMore(chunks, value[pos..pos + size]);
    if split {
      SplitGoesOn(value, chunks, bins, pos, size, bin);
      more := bins + [bin];
    } else {
      SplitEnds(value, chunks, bins, pos, size);
      more := bins;
    }
  }

  /** The loop. */
  method TakeChunks(value: seq<Byte>, compressed: bool)
    returns (chunks: seq<seq<Byte>>, total: nat, ghost bins: seq<nat>)
    ensures SplitSoFar(value, compressed, chunks, total, bins, |value|)
  {
    chunks, bins := [], [];
    var pos := 0;
    total := 0;
    while pos < |value|
      invariant SplitSoFar(value, compressed, chunks, total, bins, pos)
      decreases |value| - pos
    {
      var size, allocation, more := NextChunk(value, compressed, chunks, total, bins, pos);
      chunks, bins := chunks + [value[pos..pos + size]], more;
      pos := pos + size;
      total := total + allocation;
    }
  }

  /** The chunks hold the value in order. There are at most eight, because no bin is used twice, and the
      charge is the length of the value and the overhead of each chunk. A chunk that fills no bin is one that
      was not to be split. */
  method SplitValueIntoChunks(value: seq<Byte>, compressed: bool, charge: nat)
    returns (chunks: seq<seq<Byte>>, charged: nat, ghost bins: seq<nat>)
    ensures Joined(chunks) == value
    ensures charged == charge + |value| + Overheads(|chunks|)
    ensures |chunks| <= 8 && FillsBins(chunks, bins)
    ensures !compressed ==> |chunks| <= 1
    ensures |chunks| > |bins| ==> !Splits(compressed, |chunks[|chunks| - 1]|)
  {
    var total;
    chunks, total, bins := TakeChunks(value, compressed);
    assert value[..|value|] == value;
    AllocatedIsOverhead(chunks);
    charged := charge + total;
  }

  /** MergeChunksIntoValue: measure the chunks, then copy them one after the other. */
  method MergeChunksIntoValue(chunks: seq<seq<Byte>>) returns (value: array<Byte>, charge: nat)
    ensures fresh(value) && value[..] == Joined(chunks) && charge == |Joined(chunks)|
  {
    charge := 0;
    for i := 0 to |chunks|
      invariant charge == |Joined(chunks[..i])|
    {
      JoinedPrefix(chunks, i);
      charge := charge + |chunks[i]|;
    }
    assert chunks[..|chunks|] == chunks;
    value := new Byte[charge];
    var pos := 0;
    for i := 0 to |chunks|
      invariant pos == |Joined(chunks[..i])| <= value.Length && value[..pos] == Joined(chunks[..i])
    {
      JoinedPrefix(chunks, i);
      Copy(chunks[i], value, pos);
      pos := pos + |chunks[i]|;
    }
    assert value[..pos] == value[..];
  }

  /** memcpy */
  method Copy(src: seq<Byte>, dst: array<Byte>, at: nat)
    requires at + |src| <= dst.Length
    modifies dst
    ensures dst[..at] == old(dst[..at]) && dst[..at + |src|] == old(dst[..at]) + src
    ensures dst[at + |src|..] == old(dst[at + |src|..])
  {
    for j := 0 to |src|
      invariant dst[..at] == old(dst[..at]) && dst[at..at + j] == src[..j]
      invariant dst[at + |src|..] == old(dst[at + |src|..])
    {
      dst[at + j] := src[j];
    }
  }

  /** What is stored comes back, byte for byte, at its own length. */
  method SplitAndMerge(value: seq<Byte>, compressed: bool) returns (back: array<Byte>, charge: nat)
    ensures back[..] == value && charge == |value|
  {
    var chunks, _, _ := SplitValueIntoChunks(value, compressed, 0);
    back, charge := MergeChunksIntoValue(chunks);
  }
}
