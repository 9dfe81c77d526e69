/** DBIter: a two-way cursor over the user keys that one snapshot shows.

    The inner iterator `iter_` is a position in the sorted entry list, `|entries|` when it is not
    valid. Every public operation is proved to move an index over the rows of `SnapshotView`. */
module DBIterator {
  import opened InternalKeys
  import opened Options
  import opened SnapshotView

  datatype Status = Ok | MergeFailed | Incomplete

  datatype Direction = Forward | Reverse

  datatype Op = SeekTo(target: Key) | SeekBackTo(target: Key) | ToFirst | ToLast | StepNext | StepPrev

  datatype Seen = Shown(key: Key, value: Value) | NotValid(status: Status)

  predicate OnRow(rows: seq<Row>, c: int) {
    0 <= c < |rows| && rows[c].outcome.Found?
  }

  /** Where an operation moves an index over the rows. */
  function IndexStep(rows: seq<Row>, c: int, op: Op): int {
    match op
    case SeekTo(t) => CountBelow(rows, t)
    case SeekBackTo(t) => CountBelow(rows, t + 1) - 1
    case ToFirst => 0
    case ToLast => |rows| - 1
    case StepNext => if OnRow(rows, c) then c + 1 else c
    case StepPrev => if OnRow(rows, c) then c - 1 else c
  }

  function IndexSeen(rows: seq<Row>, c: int): Seen {
    if !(0 <= c < |rows|) then NotValid(Ok)
    else if rows[c].outcome.Found? then Shown(rows[c].key, rows[c].outcome.value)
    else NotValid(MergeFailed)
  }

  /** What a run of operations shows when the iterator is nothing but an index. */
  function IndexRun(rows: seq<Row>, c: int, ops: seq<Op>): seq<Seen>
    decreases |ops|
  {
    if ops == [] then []
    else
      var next := IndexStep(rows, c, ops[0]);
      [IndexSeen(rows, next)] + IndexRun(rows, next, ops[1..])
  }

  class DBIter {
    const src: Snapshot
    /** max_skip_: how many entries are stepped over before a reseek. */
    const maxSkip: nat
    /** max_skippable_internal_keys_: zero means no limit. */
    const maxSkippable: nat

    /** The position of iter_. */
    var pos: nat
    var savedKey: Key
    var value: Value
    var status: Status
    var direction: Direction
    var valid: bool
    /** current_entry_is_merged_ */
    var merged: bool
    /** is_key_seqnum_zero_: the entry just parsed has sequence number zero. */
    var seqZero: bool
    /** num_internal_keys_skipped_ */
    var skipped: nat

    /** The caller sees `r`. */
    ghost predicate Shows(r: Resolution)
      reads this
    {
      match r
      case Found(v) => valid && value == v && status.Ok?
      case Failed => !valid && status.MergeFailed?
      case Absent => !valid && status.Ok?
    }

    /** Where iter_ stands while a row is shown: moving forward, on the entry that gave the value, or
        after the last entry that was merged into it; moving backward, just before the key's entries. */
    ghost predicate Placed()
      reads this
      requires src.Valid()
    {
      match direction
      case Forward =>
        && src.FirstOf(savedKey) <= (if merged then pos - 1 else pos) < src.EndOf(savedKey)
        && (seqZero ==> (if merged then pos else pos + 1) == src.EndOf(savedKey))
      case Reverse =>
        src.IsBefore(pos, savedKey)
    }

    ghost predicate Inv()
      reads this
    {
      && src.Valid()
      && pos <= |src.entries|
      && (status.Incomplete? ==> 0 < maxSkippable < skipped)
      && (valid ==> status.Ok? && src.Live(savedKey) && Placed())
    }

    /** The index of the shown row. */
    ghost function Cursor(): int
      reads this
    {
      CountBelow(src.Rows(), savedKey)
    }

    /** The state that a plain index `c` over the rows asks for: the row when there is one, and an
        iterator that is not valid when the index has run off either end. A run that gave up
        because of `maxSkippable` is exempt. */
    ghost predicate At(c: int)
      reads this
    {
      if status.Incomplete? then !valid
      else if 0 <= c < |src.Rows()| then
        && savedKey == src.Rows()[c].key
        && Shows(src.Rows()[c].outcome)
      else !valid && status.Ok?
    }

    constructor (src: Snapshot, maxSkip: nat, maxSkippable: nat)
      requires src.Valid()
      ensures Inv() && !valid && status.Ok?
      ensures this.src == src && this.maxSkip == maxSkip && this.maxSkippable == maxSkippable
    {
      this.src, this.maxSkip, this.maxSkippable := src, maxSkip, maxSkippable;
      pos, savedKey, value, status := |src.entries|, 0, "", Ok;
      direction, valid, merged, seqZero, skipped := Forward, false, false, false, 0;
    }

    // ----- the inner iterator

    method InnerNext()
      requires pos < |src.entries|
      modifies this`pos
      ensures pos == old(pos) + 1
    {
      pos := pos + 1;
    }

    method InnerPrev()
      requires pos < |src.entries|
      modifies this`pos
      ensures pos == if old(pos) == 0 then |src.entries| else old(pos) - 1
    {
      pos := if pos == 0 then |src.entries| else pos - 1;
    }

    method InnerSeek(t: Target)
      requires src.Valid()
      modifies this`pos
      ensures pos == SeekPosition(src.entries, t)
    {
      pos := SeekPosition(src.entries, t);
    }

    // ----- helpers shared by both directions

    method TooManyInternalKeysSkipped(increment: bool) returns (tooMany: bool)
      requires status.Ok?
      modifies this`valid, this`status, this`skipped
      ensures tooMany <==> 0 < maxSkippable < old(skipped)
      ensures tooMany ==> !valid && status.Incomplete? && skipped == old(skipped)
      ensures !tooMany ==> valid == old(valid) && status.Ok? && skipped == old(skipped) + if increment then 1 else 0
    {
      if maxSkippable > 0 && skipped > maxSkippable {
        valid := false;
        status := Incomplete;
        return true;
      } else if increment {
        skipped := skipped + 1;
      }
      return false;
    }

    /** Merge: runs the merge operator and exposes what it gave. */
    method Merge(base: Option<Value>, operands: seq<Value>) returns (ok: bool)
      requires status.Ok?
      modifies this`value, this`valid, this`status
      ensures Shows(Merged(src.merge(savedKey, base, operands)))
      ensures ok == status.Ok?
    {
      match src.merge(savedKey, base, operands) {
        case None =>
          valid := false;
          status := MergeFailed;
          return false;
        case Some(v) =>
          value := v;
          valid := true;
          return true;
      }
    }

    // ----- moving forward

    /** Collects operands from newer to older, starting at the newest visible entry of the key. */
    method MergeValuesNewToOld() returns (ok: bool)
      requires src.Valid() && status.Ok?
      requires pos < |src.entries| && src.entries[pos].key == savedKey && src.entries[pos].kind.Merge?
      modifies this`pos, this`value, this`valid, this`status
      ensures Shows(src.OutcomeIn(savedKey, old(pos), src.EndOf(savedKey)))
      ensures old(pos) < pos <= src.EndOf(savedKey)
      ensures ok == status.Ok?
    {
      ghost var a, b := pos, src.EndOf(savedKey);
      var operands := [src.entries[pos].value];
      InnerNext();
      while pos < |src.entries|
        invariant a < pos <= b && status.Ok?
        invariant src.OperandsIn(a, b) == src.OperandsIn(pos, b) + operands
        invariant src.BaseIn(a, b) == src.BaseIn(pos, b)
        decreases |src.entries| - pos
      {
        var e := src.entries[pos];
        if e.key != savedKey {
          break;
        }
        assert [] + operands == operands;
        if IsDeletion(e.kind) {
          InnerNext();
          ok := Merge(None, operands);
          return;
        }
        if e.kind.Put? {
          ok := Merge(Some(e.value), operands);
          InnerNext();
          return;
        }
        operands := [e.value] + operands;
        InnerNext();
      }
      assert pos == b;
      ok := Merge(None, operands);
    }

    /** What a forward search from `floor` must reach: the first live key at or above it. */
    ghost predicate LandedForward(floor: Key)
      reads this
    {
      if status.Incomplete? then !valid
      else if valid || status.MergeFailed? then
        && floor <= savedKey
        && src.Quiet(floor, savedKey)
        && src.Live(savedKey)
        && Shows(src.Outcome(savedKey))
      else forall k :: floor <= k ==> !src.Live(k)
    }

    /** The entry at iter_ is the newest visible version of a key that must not be skipped: yield its
        value, merge it, or note that its key is deleted. */
    method YieldEntry(ghost floor: Key, ghost low: Key) returns (found: bool, ok: bool)
      requires src.Valid() && pos < |src.entries| && status.Ok? && direction.Forward? && !merged
      requires floor <= low <= src.entries[pos].key && src.Quiet(floor, low)
      requires src.lower.Some? ==> src.lower.value <= floor
      requires src.upper.Some? ==> src.entries[pos].key < src.upper.value
      requires src.Visible(src.entries[pos]) && seqZero == (src.entries[pos].sequence == 0)
      requires forall i :: 0 <= i < pos ==> src.entries[i].key < low || !src.Visible(src.entries[i])
      modifies this
      ensures direction.Forward?
      ensures savedKey == old(src.entries[pos].key)
      ensures found ==> Inv() && LandedForward(floor) && ok == status.Ok?
      ensures !found ==> status.Ok? && pos == old(pos) && seqZero == old(seqZero) && !merged
      ensures !found ==> src.Quiet(floor, savedKey + 1)
    {
      var e := src.entries[pos];
      src.PassedKeysAreDead(low, pos);
      src.NewestVisible(e.key, pos);
      src.OutcomeFromStretch(e.key);
      assert e.sequence == 0 && pos + 1 < |src.entries| ==> e.key < src.entries[pos + 1].key;
      savedKey := e.key;
      if IsDeletion(e.kind) {
        return false, true;
      } else if e.kind.Put? {
        value := e.value;
        valid := true;
        return true, true;
      } else {
        merged := true;
        ok := MergeValuesNewToOld();
        return true, ok;
      }
    }

    /** Moves iter_ past the current entry, by a step or by a reseek to the end of what is skipped. */
    method Advance(skipping: bool, reseek: bool)
      requires src.Valid() && pos < |src.entries|
      requires reseek && skipping ==> src.entries[pos].key <= savedKey
      requires reseek && !skipping ==> src.entries[pos].key == savedKey && !src.Visible(src.entries[pos])
      modifies this`pos
      ensures old(pos) <= pos <= |src.entries|
      ensures !reseek ==> pos == old(pos) + 1
      ensures reseek ==> forall i :: old(pos) <= i < pos ==> src.entries[i].key <= savedKey
      ensures reseek && !skipping ==> forall i :: old(pos) <= i < pos ==> !src.Visible(src.entries[i])
    {
      if reseek {
        var t := if skipping then Target(savedKey, 0, TypeByte(Deletion))
                 else Target(savedKey, src.sequence, SEEK_TYPE);
        SeekNotBehind(src.entries, t, pos);
        InnerSeek(t);
      } else {
        InnerNext();
      }
    }

    /** FindNextUserEntryInternal: the next live key, whatever mix of steps and reseeks gets there. */
    method FindNextUserEntry(skippingSavedKey: bool, ghost floor: Key) returns (ok: bool)
      requires src.Valid() && pos < |src.entries| && status.Ok? && direction.Forward?
      requires floor == if skippingSavedKey then savedKey + 1 else savedKey
      requires src.lower.Some? ==> src.lower.value <= floor
      requires forall i :: 0 <= i < pos ==> src.entries[i].key < floor || !src.Visible(src.entries[i])
      requires forall i :: pos <= i < |src.entries| ==> savedKey <= src.entries[i].key
      requires seqZero ==> skippingSavedKey && savedKey < src.entries[pos].key
      modifies this
      ensures Inv() && LandedForward(floor)
      ensures direction.Forward?
      ensures ok == status.Ok?
    {
      merged := false;
      var skipping := skippingSavedKey;
      var numSkipped := 0;
      var reseekDone := false;
      // Every live key at or above `floor` is at or above `low`.
      ghost var low := floor;
      while pos < |src.entries|
        invariant pos <= |src.entries| && status.Ok? && direction.Forward? && !merged
        invariant floor <= low && src.Quiet(floor, low)
        invariant forall i :: 0 <= i < pos ==> src.entries[i].key < low || !src.Visible(src.entries[i])
        invariant skipping ==> low == savedKey + 1
        invariant pos < |src.entries| ==> (if skipping then savedKey else low) <= src.entries[pos].key
        invariant seqZero && skipping && pos < |src.entries| ==> savedKey < src.entries[pos].key
        decreases |src.entries| - pos, if reseekDone then 0 else 1
      {
        var prevSeqZero := seqZero;
        var e := src.entries[pos];
        seqZero := e.sequence == 0;
        if src.upper.Some? && e.key >= src.upper.value {
          break;
        }
        var tooMany := TooManyInternalKeysSkipped(true);
        if tooMany {
          return false;
        }
        if src.Visible(e) {
          if !prevSeqZero && skipping && e.key <= savedKey {
            numSkipped := numSkipped + 1;
          } else {
            assert !skipping || savedKey < e.key;
            numSkipped := 0;
            reseekDone := false;
            var found;
            found, ok := YieldEntry(floor, low);
            if found {
              return;
            }
            skipping := true;
            low := e.key + 1;
          }
        } else {
          if e.key == savedKey || (skipping && e.key < savedKey) {
            numSkipped := numSkipped + 1;
          } else {
            savedKey := e.key;
            skipping := false;
            numSkipped := 0;
            reseekDone := false;
          }
        }
        var reseek := numSkipped > maxSkip && !reseekDone;
        if reseek {
          seqZero := false;
          numSkipped := 0;
          reseekDone := true;
        }
        Advance(skipping, reseek);
      }
      src.NothingAbove(low, pos);
      valid := false;
      return true;
    }


    // ----- moving backward

    /** Moves back to the entry just before the saved key's entries. */
    method FindUserKeyBeforeSavedKey() returns (ok: bool)
      requires src.Valid() && status.Ok? && src.IsNear(pos, savedKey)
      modifies this`pos, this`valid, this`status, this`skipped
      ensures ok ==> src.IsBefore(pos, savedKey) && valid == old(valid) && status.Ok?
      ensures !ok ==> !valid && status.Incomplete? && 0 < maxSkippable < skipped
      ensures pos <= |src.entries|
    {
      var numSkipped := 0;
      while pos < |src.entries|
        invariant status.Ok? && src.IsNear(pos, savedKey) && valid == old(valid)
        decreases if pos < |src.entries| then pos + 1 else 0
      {
        if src.entries[pos].key < savedKey {
          return true;
        }
        var tooMany := TooManyInternalKeysSkipped(true);
        if tooMany {
          return false;
        }
        if numSkipped >= maxSkip {
          numSkipped := 0;
          InnerSeek(Target(savedKey, MAX_SEQUENCE, SEEK_TYPE));
          assert pos == src.FirstOf(savedKey);
        } else {
          numSkipped := numSkipped + 1;
        }
        InnerPrev();
      }
      return true;
    }

    /** Collects operands like MergeValuesNewToOld, and leaves iter_ near the key's entries. */
    method MergeFromSeek() returns (ok: bool)
      requires src.Valid() && status.Ok?
      requires pos < |src.entries| && src.entries[pos].key == savedKey && src.entries[pos].kind.Merge?
      modifies this`pos, this`value, this`valid, this`status
      ensures Shows(src.OutcomeIn(savedKey, old(pos), src.EndOf(savedKey)))
      ensures old(pos) < pos <= src.EndOf(savedKey)
      ensures ok == status.Ok?
    {
      ghost var a, b := pos, src.EndOf(savedKey);
      var operands := [src.entries[pos].value];
      InnerNext();
      while pos < |src.entries|
        invariant a < pos <= b && status.Ok?
        invariant src.OperandsIn(a, b) == src.OperandsIn(pos, b) + operands
        invariant src.BaseIn(a, b) == src.BaseIn(pos, b)
        decreases |src.entries| - pos
      {
        var e := src.entries[pos];
        assert [] + operands == operands;
        if e.key != savedKey || IsDeletion(e.kind) {
          break;
        }
        if e.kind.Put? {
          ok := Merge(Some(e.value), operands);
          return;
        }
        operands := [e.value] + operands;
        InnerNext();
      }
      assert [] + operands == operands;
      ok := Merge(None, operands);
    }

    /** Resolves the saved key from its newest visible entry, for keys with many versions. */
    method FindValueForCurrentKeyUsingSeek() returns (ok: bool)
      requires src.Valid() && status.Ok? && !merged
      requires src.NewestOf(savedKey) < src.EndOf(savedKey)
      modifies this`pos, this`value, this`valid, this`status, this`merged
      ensures Shows(src.OutcomeAt(savedKey)) && ok == status.Ok?
      ensures src.IsNear(pos, savedKey)
    {
      var last := Target(savedKey, src.sequence, SEEK_TYPE);
      InnerSeek(last);
      assert pos == src.NewestOf(savedKey);
      var e := src.entries[pos];
      if IsDeletion(e.kind) {
        valid := false;
        return true;
      }
      if e.kind.Put? {
        value := e.value;
        valid := true;
        return true;
      }
      merged := true;
      ok := MergeFromSeek();
      if pos == |src.entries| {
        InnerSeek(last);
      }
    }

    /** Resolves the saved key going from its oldest entry to its newest visible one. */
    method FindValueForCurrentKey() returns (ok: bool)
      requires src.Valid() && status.Ok? && pos < |src.entries|
      requires src.entries[pos].key == savedKey && pos + 1 == src.EndOf(savedKey)
      modifies this`pos, this`value, this`valid, this`status, this`merged, this`skipped
      ensures status.Incomplete? ==> !valid && 0 < maxSkippable < skipped
      ensures !status.Incomplete? ==> Shows(src.OutcomeAt(savedKey))
      ensures ok == status.Ok?
      ensures src.IsNear(pos, savedKey)
    {
      merged := false;
      var operands := [];
      var lastNotMerge := Deletion;
      var lastKind := Deletion;
      var pinned := "";
      var seen := false;
      var numSkipped := 0;
      ghost var b := src.EndOf(savedKey);
      // The entries [j, b) have been read.
      ghost var j := b;
      while pos < |src.entries|
        invariant status.Ok? && !merged && src.IsNear(pos, savedKey)
        invariant src.NewestOf(savedKey) <= j <= b
        invariant j == if pos == |src.entries| then 0 else pos + 1
        invariant operands == src.OperandsIn(j, b)
        invariant src.BaseIn(j, b) == if lastNotMerge.Put? then Some(pinned) else None
        invariant seen == (j < b)
        invariant seen ==> lastKind == src.entries[j].kind
        decreases j
      {
        var e := src.entries[pos];
        if e.key != savedKey || !src.Visible(e) {
          break;
        }
        var tooMany := TooManyInternalKeysSkipped(true);
        if tooMany {
          return false;
        }
        if numSkipped >= maxSkip {
          ok := FindValueForCurrentKeyUsingSeek();
          return;
        }
        seen := true;
        lastKind := e.kind;
        if e.kind.Merge? {
          operands := operands + [e.value];
        } else {
          operands := [];
          lastNotMerge := e.kind;
          if e.kind.Put? {
            pinned := e.value;
          }
        }
        j := pos;
        InnerPrev();
        numSkipped := numSkipped + 1;
      }
      assert j == src.NewestOf(savedKey);
      ok := Expose(seen, lastKind, lastNotMerge, pinned, operands);
    }

    /** The switch that ends FindValueForCurrentKey: exposes what the entries read so far add up to. */
    method Expose(seen: bool, lastKind: Kind, lastNotMerge: Kind, pinned: Value, operands: seq<Value>)
      returns (ok: bool)
      requires src.Valid() && status.Ok? && !merged
      requires seen == (src.NewestOf(savedKey) < src.EndOf(savedKey))
      requires seen ==> lastKind == src.entries[src.NewestOf(savedKey)].kind
      requires operands == src.OperandsIn(src.NewestOf(savedKey), src.EndOf(savedKey))
      requires src.BaseIn(src.NewestOf(savedKey), src.EndOf(savedKey)) ==
        if lastNotMerge.Put? then Some(pinned) else None
      modifies this`value, this`valid, this`status, this`merged
      ensures Shows(src.OutcomeAt(savedKey)) && ok == status.Ok?
    {
      if !seen || IsDeletion(lastKind) {
        valid := false;
        return true;
      } else if lastKind.Merge? {
        merged := true;
        ok := Merge(if lastNotMerge.Put? then Some(pinned) else None, operands);
        return;
      }
      value := pinned;
      valid := true;
      return true;
    }

    /** What a backward search below `top` must reach: the last live key under it. */
    ghost predicate LandedBackward(top: Key)
      reads this
    {
      if status.Incomplete? then !valid
      else if valid || status.MergeFailed? then
        && savedKey < top
        && src.Quiet(savedKey + 1, top)
        && src.Live(savedKey)
        && Shows(src.Outcome(savedKey))
      else forall k :: k < top ==> !src.Live(k)
    }

    /** Resolves the saved key and leaves iter_ just before its entries. */
    method ResolveAndStepBack() returns (ok: bool)
      requires src.Valid() && status.Ok? && pos < |src.entries|
      requires src.entries[pos].key == savedKey && pos + 1 == src.EndOf(savedKey)
      modifies this`pos, this`value, this`valid, this`status, this`merged, this`skipped
      ensures status.Incomplete? ==> !valid && 0 < maxSkippable < skipped
      ensures !status.Incomplete? ==> Shows(src.Outcome(savedKey))
      ensures ok == status.Ok?
      ensures ok ==> src.IsBefore(pos, savedKey)
      ensures pos <= |src.entries|
    {
      src.OutcomeFromStretch(savedKey);
      ok := FindValueForCurrentKey();
      if ok {
        ok := FindUserKeyBeforeSavedKey();
      }
    }

    /** One turn of PrevInternal: takes the key that iter_ is on and moves below it. */
    method PrevKey(ghost top: Key) returns (stop: bool)
      requires src.Valid() && status.Ok? && direction.Reverse?
      requires pos < |src.entries| && src.IsReady(pos, top)
      requires src.upper.Some? ==> top <= src.upper.value
      modifies this
      ensures direction.Reverse?
      ensures stop ==> Inv() && LandedBackward(top)
      ensures !stop ==> status.Ok? && src.IsReady(pos, top)
      ensures !stop ==> pos == |src.entries| || pos < old(pos)
    {
      savedKey := src.entries[pos].key;
      if src.lower.Some? && savedKey < src.lower.value {
        valid := false;
        return true;
      }
      var ok := ResolveAndStepBack();
      if !ok || valid {
        return true;
      }
      src.BeforeIsReady(pos, savedKey, top);
      stop := TooManyInternalKeysSkipped(false);
    }

    /** PrevInternal: the last live key below `top`. */
    method PrevInternal(ghost top: Key)
      requires src.Valid() && status.Ok? && direction.Reverse? && src.IsReady(pos, top)
      requires src.upper.Some? ==> top <= src.upper.value
      modifies this
      ensures Inv() && LandedBackward(top)
      ensures direction.Reverse?
    {
      while pos < |src.entries|
        invariant status.Ok? && direction.Reverse? && src.IsReady(pos, top)
        decreases if pos < |src.entries| then pos + 1 else 0
      {
        var stop := PrevKey(top);
        if stop {
          return;
        }
      }
      valid := false;
    }

    // ----- the public operations

    /** Where a forward landing leaves the index. */
    lemma ForwardIndex(floor: Key)
      requires Inv() && LandedForward(floor)
      ensures At(CountBelow(src.Rows(), floor))
    {
      if valid || status.MergeFailed? {
        src.LiveRow(floor, savedKey);
      } else if status.Ok? {
        src.NoRowAbove(floor);
      }
    }

    /** Where a backward landing leaves the index. */
    lemma BackwardIndex(top: Key)
      requires Inv() && LandedBackward(top)
      ensures At(CountBelow(src.Rows(), top) - 1)
    {
      if valid || status.MergeFailed? {
        src.LastRowBelow(savedKey, top);
      } else if status.Ok? {
        src.NoRowBelow(top);
      }
    }

    /** Skips the entries below the saved key, so that a forward search can go on from it. */
    method ReverseToForward()
      requires Inv() && valid && direction.Reverse?
      modifies this`pos, this`direction
      ensures pos == src.FirstOf(savedKey) < |src.entries|
      ensures direction.Forward?
    {
      ghost var j := src.FirstEntry(savedKey);
      if pos == |src.entries| {
        InnerSeek(Target(savedKey, MAX_SEQUENCE, SEEK_TYPE));
      }
      direction := Forward;
      while pos < |src.entries|
        invariant pos <= src.FirstOf(savedKey) <= j && direction.Forward?
        decreases |src.entries| - pos
      {
        if src.entries[pos].key >= savedKey {
          return;
        }
        InnerNext();
      }
    }

    /** Moves iter_ to the entry before the saved key. */
    method ReverseToBackward() returns (ok: bool)
      requires Inv() && valid && direction.Forward?
      modifies this`pos, this`valid, this`status, this`skipped, this`direction
      ensures direction.Reverse? && pos <= |src.entries|
      ensures ok ==> src.IsBefore(pos, savedKey) && status.Ok?
      ensures !ok ==> !valid && status.Incomplete? && 0 < maxSkippable < skipped
    {
      if merged && pos == |src.entries| {
        InnerSeek(Target(savedKey, MAX_SEQUENCE, SEEK_TYPE));
      }
      direction := Reverse;
      ok := FindUserKeyBeforeSavedKey();
    }

    /** The first half of Next: iter_ leaves the shown entry, turning around when it must. */
    method LeaveShownEntry()
      requires Inv() && valid
      modifies this`pos, this`direction, this`seqZero
      ensures direction.Forward? && pos <= |src.entries|
      ensures forall i :: 0 <= i < pos ==> src.entries[i].key <= savedKey
      ensures forall i :: pos <= i < |src.entries| ==> savedKey <= src.entries[i].key
      ensures seqZero && pos < |src.entries| ==> savedKey < src.entries[pos].key
    {
      if direction.Reverse? {
        seqZero := false;
        ReverseToForward();
      } else if !merged {
        InnerNext();
      }
    }

    method Next()
      requires Inv() && valid
      modifies this
      ensures Inv()
      ensures At(old(Cursor()) + 1)
    {
      skipped := 0;
      ghost var k := savedKey;
      NextFloor(k);
      LeaveShownEntry();
      if pos < |src.entries| {
        var ok := FindNextUserEntry(true, k + 1);
      } else {
        seqZero := false;
        valid := false;
        src.NothingAbove(k + 1, pos);
      }
      ForwardIndex(k + 1);
    }

    /** One row up is the first row at or above the successor of the shown key. */
    lemma NextFloor(k: Key)
      requires src.Valid() && src.Live(k)
      ensures CountBelow(src.Rows(), k + 1) == CountBelow(src.Rows(), k) + 1
    {
      src.LastRowBelow(k, k + 1);
    }

    method Prev()
      requires Inv() && valid
      modifies this
      ensures Inv()
      ensures At(old(Cursor()) - 1)
    {
      skipped := 0;
      ghost var k := savedKey;
      if direction.Forward? {
        var ok := ReverseToBackward();
        if !ok {
          return;
        }
      }
      src.BeforeIsReady(pos, k, k);
      PrevInternal(k);
      BackwardIndex(k);
    }

    method Seek(target: Key)
      requires Inv()
      modifies this
      ensures Inv()
      ensures At(CountBelow(src.Rows(), target))
    {
      status, skipped, seqZero := Ok, 0, false;
      savedKey := if src.lower.Some? && target < src.lower.value then src.lower.value else target;
      ghost var floor := savedKey;
      ClampedFloor(target, floor);
      InnerSeek(Target(savedKey, src.sequence, SEEK_TYPE));
      if pos == |src.entries| {
        valid := false;
        src.NothingAbove(floor, pos);
        src.NoRowAbove(floor);
        return;
      }
      direction := Forward;
      var ok := FindNextUserEntry(false, floor);
      ForwardIndex(floor);
    }

    /** Raising a target to the lower bound passes no row. */
    lemma ClampedFloor(target: Key, floor: Key)
      requires src.Valid()
      requires floor == if src.lower.Some? && target < src.lower.value then src.lower.value else target
      ensures CountBelow(src.Rows(), target) == CountBelow(src.Rows(), floor)
    {
      src.RowsSorted(0);
      CountBelowSplits(src.Rows(), target);
      CountBelowSplits(src.Rows(), floor);
      if src.Rows() != [] {
        assert src.Live(src.Rows()[0].key);
      }
    }

    method SeekForPrev(target: Key)
      requires Inv()
      modifies this
      ensures Inv()
      ensures At(CountBelow(src.Rows(), target + 1) - 1)
    {
      status, skipped, seqZero := Ok, 0, false;
      var clamped := src.upper.Some? && target >= src.upper.value;
      savedKey := if clamped then src.upper.value else target;
      var t := if clamped then Target(savedKey, MAX_SEQUENCE, SEEK_FOR_PREV_TYPE)
               else Target(savedKey, 0, SEEK_FOR_PREV_TYPE);
      ghost var top := if clamped then savedKey else target + 1;
      ClampedTop(target + 1, top);
      pos := SeekForPrevPosition(src.entries, t);
      SeekForPrevIsBefore(t, top);
      src.BeforeIsReady(pos, top, top);
      if pos == |src.entries| {
        valid := false;
        src.NoRowBelow(top);
        return;
      }
      direction := Reverse;
      PrevInternal(top);
      BackwardIndex(top);
    }

    /** Lowering a target to the upper bound passes no row. */
    lemma ClampedTop(next: Key, top: Key)
      requires src.Valid()
      requires top == if src.upper.Some? && next > src.upper.value then src.upper.value else next
      ensures CountBelow(src.Rows(), next) == CountBelow(src.Rows(), top)
    {
      src.RowsSorted(0);
      CountBelowSplits(src.Rows(), next);
      CountBelowSplits(src.Rows(), top);
    }

    /** Both seek targets of SeekForPrev land just before the keys from `top` on. */
    lemma SeekForPrevIsBefore(t: Target, top: Key)
      requires src.Valid()
      requires t == Target(top, MAX_SEQUENCE, SEEK_FOR_PREV_TYPE) || t == Target(top - 1, 0, SEEK_FOR_PREV_TYPE)
      ensures src.IsBefore(SeekForPrevPosition(src.entries, t), top)
    {
      assert forall i :: 0 <= i < |src.entries| ==>
        (Compare(Position(src.entries[i]), t) > 0 <==> top <= src.entries[i].key);
      var p := SeekForPrevPosition(src.entries, t);
      if p == |src.entries| {
        assert src.entries != [] ==> top <= src.entries[0].key;
      } else {
        assert p + 1 < |src.entries| ==> top <= src.entries[p + 1].key;
      }
    }

    method SeekToFirst()
      requires Inv()
      modifies this
      ensures Inv()
      ensures At(0)
    {
      if src.lower.Some? {
        src.NoRowBelow(src.lower.value);
        Seek(src.lower.value);
        return;
      }
      status, direction, skipped, seqZero := Ok, Forward, 0, false;
      pos := 0;
      if pos < |src.entries| {
        savedKey := src.entries[pos].key;
        ghost var floor := savedKey;
        src.BeforeIsReady(|src.entries|, floor, floor);
        src.NoRowBelow(floor);
        var ok := FindNextUserEntry(false, floor);
        ForwardIndex(floor);
      } else {
        valid := false;
      }
    }

    method SeekToLast()
      requires Inv()
      modifies this
      ensures Inv()
      ensures At(|src.Rows()| - 1)
    {
      if src.upper.Some? {
        src.NoRowAbove(src.upper.value + 1);
        SeekForPrev(src.upper.value);
        return;
      }
      status, direction, skipped, seqZero := Ok, Reverse, 0, false;
      pos := if |src.entries| == 0 then 0 else |src.entries| - 1;
      ghost var top := if |src.entries| == 0 then 0 else src.entries[|src.entries| - 1].key + 1;
      src.NothingAbove(top, |src.entries|);
      src.NoRowAbove(top);
      src.BeforeIsReady(pos, top, top);
      PrevInternal(top);
      BackwardIndex(top);
    }

    /** What the caller can read after an operation. */
    function Observation(): Seen
      reads this
    {
      if valid then Shown(savedKey, value) else NotValid(status)
    }

    /** Any run of operations, from a fresh iterator, shows what an index moving over the rows shows.
        It can only stop short by giving up at `maxSkippable`. */
    method Run(ops: seq<Op>) returns (seen: seq<Seen>)
      requires Inv() && !valid && status.Ok?
      modifies this
      ensures seen <= IndexRun(src.Rows(), -1, ops)
      ensures maxSkippable == 0 ==> seen == IndexRun(src.Rows(), -1, ops)
      ensures seen != IndexRun(src.Rows(), -1, ops) ==> status.Incomplete? && 0 < maxSkippable < skipped
    {
      seen := [];
      ghost var rows := src.Rows();
      ghost var c := -1;
      ghost var whole := IndexRun(rows, -1, ops);
      assert ops[0..] == ops;
      for i := 0 to |ops|
        invariant Inv() && At(c) && !status.Incomplete?
        invariant valid ==> c == Cursor()
        invariant whole == seen + IndexRun(rows, c, ops[i..])
      {
        ghost var rest := ops[i + 1..];
        assert ops[i..][0] == ops[i] && ops[i..][1..] == rest;
        c := IndexStep(rows, c, ops[i]);
        Apply(ops[i]);
        if status.Incomplete? {
          return;
        }
        RowIndex(c);
        seen := seen + [Observation()];
        assert whole == seen + IndexRun(rows, c, rest);
      }
      assert ops[|ops|..] == [];
    }

    /** One operation; Next and Prev are only made on a valid iterator. */
    method Apply(op: Op)
      requires Inv() && !status.Incomplete?
      modifies this
      ensures Inv()
      ensures forall c :: old(At(c)) && (old(valid) ==> c == old(Cursor())) ==> At(IndexStep(src.Rows(), c, op))
    {
      match op {
        case SeekTo(t) => Seek(t);
        case SeekBackTo(t) => SeekForPrev(t);
        case ToFirst => SeekToFirst();
        case ToLast => SeekToLast();
        case StepNext => if valid { Next(); }
        case StepPrev => if valid { Prev(); }
      }
    }

    /** The shown row is at the index that its key counts to. */
    lemma RowIndex(c: int)
      requires Inv() && At(c) && !status.Incomplete?
      ensures valid ==> c == Cursor()
      ensures Observation() == IndexSeen(src.Rows(), c)
    {
      src.RowsSorted(0);
      if valid {
        src.LiveRow(savedKey, savedKey);
      }
    }
  }
}
