/** What the Rust backend's rotation and flush do to the snapshot files: the exact steps, the
    resulting files, and the files after any prefix of the steps. */
module Rotation {
  import opened Values
  import opened Storage
  import opened Timeline
  import opened Adler32
  import opened JsonCodec

  /** Exactly one of the two files of the slot exists. */
  predicate Half(files: Files, slot: nat) {
    (File(slot, Json) in files) != (File(slot, Hash) in files)
  }

  /** The number of rotation rounds for a given snapshot_max_count. */
  function Rounds(max: nat): nat {
    if max == 0 then 0 else max - 1
  }

  /** The renames of n rounds, each round looking at the files the round before it left. */
  function RotateSteps(files: Files, n: nat): seq<Step>
    decreases n
  {
    if n == 0 then []
    else if Half(files, n - 1) then []
    else if File(n - 1, Json) !in files then RotateSteps(files, n - 1)
    else MoveUp(n) + RotateSteps(Run(files, MoveUp(n)), n - 1)
  }

  function MoveUp(n: nat): (r: seq<Step>)
    requires n > 0
    ensures |r| == 2
  {
    [Rename(File(n - 1, Hash), File(n, Hash)), Rename(File(n - 1, Json), File(n, Json))]
  }

  /** One more than the highest half-present slot below n, where rotation stops; 0 if there is
      none. */
  function Blocked(files: Files, n: nat): (r: nat)
    ensures r <= n
    decreases n
  {
    if n == 0 then 0 else if Half(files, n - 1) then n else Blocked(files, n - 1)
  }

  lemma {:induction false} BlockedByHighestHalf(files: Files, n: nat)
    ensures forall k :: Blocked(files, n) <= k < n ==> !Half(files, k)
    ensures Blocked(files, n) > 0 ==> Half(files, Blocked(files, n) - 1)
    decreases n
  {
    if n > 0 && !Half(files, n - 1) {
      BlockedByHighestHalf(files, n - 1);
    }
  }

  predicate RotateOk(files: Files, n: nat) {
    Blocked(files, n) == 0
  }

  // ---------- One round

  /** The files after one round that moves slot n - 1 up, or finds it empty. */
  function OneRound(files: Files, n: nat): Files
    requires n > 0
  {
    if File(n - 1, Json) in files then Run(files, MoveUp(n)) else files
  }

  lemma OneRoundColumns(files: Files, n: nat, kind: Kind)
    requires n > 0 && !Half(files, n - 1)
    ensures Column(OneRound(files, n), kind, n + 1) == Shift(Column(files, kind, n + 1), n - 1)
    ensures forall f: File | f.slot > n || f.slot < n - 1 :: Look(OneRound(files, n), f) == Look(files, f)
  {
    RunTwo(files, MoveUp(n)[0], MoveUp(n)[1]);
  }

  lemma {:induction false} BlockedBelow(files: Files, files': Files, n: nat)
    requires forall f: File | f.slot < n :: Look(files, f) == Look(files', f)
    ensures Blocked(files, n) == Blocked(files', n)
  {
    if n > 0 {
      assert Look(files, File(n - 1, Json)) == Look(files', File(n - 1, Json));
      assert Look(files, File(n - 1, Hash)) == Look(files', File(n - 1, Hash));
      BlockedBelow(files, files', n - 1);
    }
  }

  lemma ColumnPrefix(files: Files, kind: Kind, n: nat)
    ensures Column(files, kind, n + 1) == Column(files, kind, n) + [Look(files, File(n, kind))]
  {
  }

  // ---------- The whole rotation

  /** The json family has shifted from `lo` and the hash family from `lo'`, in the window of slots
      0..n; files above the window are as they were. */
  ghost predicate Shifted(files: Files, now: Files, n: nat, lo: nat, lo': nat) {
    && Column(now, Json, n + 1) == Shift(Column(files, Json, n + 1), lo)
    && Column(now, Hash, n + 1) == Shift(Column(files, Hash, n + 1), lo')
    && forall f: File | f.slot > n :: Look(now, f) == Look(files, f)
  }

  function Rotated(files: Files, n: nat): Files {
    Run(files, RotateSteps(files, n))
  }

  /** The file at slot k once its family has moved up from slot `from`. */
  function MovedFile(files: Files, kind: Kind, max: nat, from: nat, k: nat): Option<Bytes> {
    if k < from || from + 1 >= max then Look(files, File(k, kind))
    else if k == from then None
    else if k + 1 == max && File(k - 1, kind) !in files then Look(files, File(k, kind))
    else Look(files, File(k - 1, kind))
  }

  lemma ShiftedFile(files: Files, now: Files, kind: Kind, max: nat, from: nat, k: nat)
    requires k < max && from < max && Column(now, kind, max) == Shift(Column(files, kind, max), from)
    ensures Look(now, File(k, kind)) == MovedFile(files, kind, max, from, k)
  {
    assert Column(now, kind, max)[k] == Look(now, File(k, kind));
  }

  lemma ShiftedSlot(files: Files, now: Files, n: nat, lo: nat, lo': nat, k: nat)
    requires Shifted(files, now, n, lo, lo') && lo <= n && lo' <= n && k <= n
    ensures Look(now, File(k, Json)) == MovedFile(files, Json, n + 1, lo, k)
    ensures Look(now, File(k, Hash)) == MovedFile(files, Hash, n + 1, lo', k)
  {
    ShiftedFile(files, now, Json, n + 1, lo, k);
    ShiftedFile(files, now, Hash, n + 1, lo', k);
  }

  /** Rotation shifts both families alike: everything above the highest half-present slot moves up
      by one. */
  lemma {:induction false} RotationShifts(files: Files, n: nat)
    ensures Shifted(files, Rotated(files, n), n, Blocked(files, n), Blocked(files, n))
    decreases n
  {
    if n == 0 || Half(files, n - 1) {
      NothingShifted(files, n);
    } else {
      var lo := Blocked(files, n);
      OneRoundBlocked(files, n);
      RotationShifts(OneRound(files, n), n - 1);
      RunRotate(files, n);
      ShiftedOneRound(files, n, Rotated(files, n), lo, lo);
    }
  }

  lemma NothingShifted(files: Files, n: nat)
    ensures Shifted(files, files, n, n, n)
  {
  }

  lemma OneRoundBlocked(files: Files, n: nat)
    requires n > 0 && !Half(files, n - 1)
    ensures Blocked(OneRound(files, n), n - 1) == Blocked(files, n)
  {
    OneRoundColumns(files, n, Json);
    BlockedBelow(files, OneRound(files, n), n - 1);
  }

  lemma RunRotate(files: Files, n: nat)
    requires n > 0 && !Half(files, n - 1)
    ensures Rotated(files, n) == Rotated(OneRound(files, n), n - 1)
  {
    if File(n - 1, Json) in files {
      RunConcat(files, MoveUp(n), RotateSteps(OneRound(files, n), n - 1));
    }
  }

  lemma ShiftedOneRound(files: Files, n: nat, now: Files, lo: nat, lo': nat)
    requires n > 0 && !Half(files, n - 1) && lo < n && lo' < n
    requires Shifted(OneRound(files, n), now, n - 1, lo, lo')
    ensures Shifted(files, now, n, lo, lo')
  {
    var next := OneRound(files, n);
    OneRoundColumns(files, n, Json);
    OneRoundColumns(files, n, Hash);
    ShiftFromTheTop(Column(files, Json, n + 1), lo);
    ShiftFromTheTop(Column(files, Hash, n + 1), lo');
    ColumnPrefix(next, Json, n);
    ColumnPrefix(next, Hash, n);
    ColumnPrefix(now, Json, n);
    ColumnPrefix(now, Hash, n);
  }

  lemma {:induction false} RotateStepsArePairs(files: Files, n: nat)
    ensures |RotateSteps(files, n)| % 2 == 0
    decreases n
  {
    if n > 0 && !Half(files, n - 1) {
      RotateStepsArePairs(OneRound(files, n), n - 1);
    }
  }

  /** The files after the first p renames: the json family has shifted from some slot `lo` and the
      hash family from the same slot or, if p is odd, from one below, so at most one snapshot is
      split over two slots. */
  lemma {:induction false} RotationPrefix(files: Files, n: nat, p: nat) returns (lo: nat, lo': nat)
    requires p <= |RotateSteps(files, n)|
    ensures Blocked(files, n) <= lo' <= lo <= n && lo <= lo' + 1 && (lo' < lo <==> p % 2 == 1)
    ensures lo' < lo ==> File(lo', Json) in files && File(lo', Hash) in files
    ensures Shifted(files, Run(files, RotateSteps(files, n)[..p]), n, lo, lo')
    decreases n
  {
    if p == 0 {
      lo, lo' := n, n;
      NothingShifted(files, n);
    } else if p == 1 && File(n - 1, Json) in files {
      lo, lo' := n, n - 1;
      HashMovedFirst(files, n);
    } else {
      var next := OneRound(files, n);
      var p' := if File(n - 1, Json) in files then p - 2 else p;
      OneRoundBlocked(files, n);
      PrefixAfterOneRound(files, n, p);
      lo, lo' := RotationPrefix(next, n - 1, p');
      ShiftedOneRound(files, n, Run(files, RotateSteps(files, n)[..p]), lo, lo');
      if lo' < lo {
        LowerSlotStays(files, n, lo');
      }
    }
  }

  lemma LowerSlotStays(files: Files, n: nat, k: nat)
    requires n > 0 && !Half(files, n - 1) && k < n - 1
    ensures forall kind: Kind :: File(k, kind) in OneRound(files, n) <==> File(k, kind) in files
  {
    OneRoundColumns(files, n, Json);
    forall kind: Kind ensures Look(OneRound(files, n), File(k, kind)) == Look(files, File(k, kind)) {
    }
  }

  lemma HashMovedFirst(files: Files, n: nat)
    requires n > 0 && File(n - 1, Json) in files && File(n - 1, Hash) in files
    ensures Shifted(files, Run(files, RotateSteps(files, n)[..1]), n, n, n - 1)
  {
  }

  lemma PrefixAfterOneRound(files: Files, n: nat, p: nat)
    requires n > 0 && !Half(files, n - 1) && p <= |RotateSteps(files, n)|
    requires File(n - 1, Json) in files ==> p >= 2
    ensures var next := OneRound(files, n);
            var p' := if File(n - 1, Json) in files then p - 2 else p;
            && p' <= |RotateSteps(next, n - 1)|
            && Run(files, RotateSteps(files, n)[..p]) == Run(next, RotateSteps(next, n - 1)[..p'])
  {
    if File(n - 1, Json) in files {
      var rest := RotateSteps(OneRound(files, n), n - 1);
      assert (MoveUp(n) + rest)[..p] == MoveUp(n) + rest[..p - 2];
      RunConcat(files, MoveUp(n), rest[..p - 2]);
    }
  }

  // ---------- Flush

  function TextOf(text: TextCodec, m: KvsMap, order: nat): Option<Bytes> {
    text.render(Encode(Object(m)), order)
  }

  function HashOf(t: Option<Bytes>): Option<Bytes> {
    if t.Some? then Some(HashBytes(Checksum(t.value))) else None
  }

  function SaveSteps(text: TextCodec, m: KvsMap, order: nat): seq<Step> {
    match TextOf(text, m, order)
    case Some(t) => [Write(File(0, Json), t), Write(File(0, Hash), HashBytes(Checksum(t)))]
    case None => []
  }

  function FlushSteps(text: TextCodec, files: Files, max: nat, m: KvsMap, order: nat): seq<Step> {
    RotateSteps(files, Rounds(max)) +
    if RotateOk(files, Rounds(max)) then SaveSteps(text, m, order) else []
  }

  /** The answer of a flush all of whose file changes go through. */
  function FlushOutcome(text: TextCodec, files: Files, max: nat, m: KvsMap, order: nat): Result<()> {
    if !RotateOk(files, Rounds(max)) then Err(IntegrityCorrupted)
    else if TextOf(text, m, order).None? then Err(JsonGeneratorError)
    else Ok(())
  }

  function Flushed(text: TextCodec, files: Files, max: nat, m: KvsMap, order: nat): Files {
    Run(files, FlushSteps(text, files, max, m, order))
  }

  /** The pair of files that goes with a text stands in slot 0 of an advanced window. */
  ghost predicate Advanced(files: Files, after: Files, max: nat, t: Option<Bytes>) {
    && Column(after, Json, max) == Advance(Column(files, Json, max), 0, t)
    && Column(after, Hash, max) == Advance(Column(files, Hash, max), 0, HashOf(t))
    && forall f: File | f.slot >= max :: Look(after, f) == Look(files, f)
  }

  /** What a flush leaves in each family: one shift, then the new file in slot 0. */
  lemma FlushAdvances(text: TextCodec, files: Files, max: nat, m: KvsMap, order: nat)
    requires max > 0 && RotateOk(files, max - 1)
    ensures Advanced(files, Flushed(text, files, max, m, order), max, TextOf(text, m, order))
  {
    FlushedIsSaved(text, files, max, m, order);
    RotatedAndSaved(files, max, TextOf(text, m, order));
  }

  lemma RotatedAndSaved(files: Files, max: nat, t: Option<Bytes>)
    requires max > 0 && RotateOk(files, max - 1)
    ensures Advanced(files, Saved(Rotated(files, max - 1), t), max, t)
  {
    RotationShifts(files, max - 1);
    SaveAdvances(files, Rotated(files, max - 1), max, t);
  }

  function Saved(files: Files, t: Option<Bytes>): Files {
    if t.Some? then files[File(0, Json) := t.value][File(0, Hash) := HashBytes(Checksum(t.value))] else files
  }

  lemma SaveAdvances(files: Files, rotated: Files, max: nat, t: Option<Bytes>)
    requires max > 0 && Shifted(files, rotated, max - 1, 0, 0)
    ensures Advanced(files, Saved(rotated, t), max, t)
  {
    SavedColumn(rotated, t, max, Json);
    SavedColumn(rotated, t, max, Hash);
  }

  lemma SavedColumn(files: Files, t: Option<Bytes>, max: nat, kind: Kind)
    requires max > 0
    ensures var entry := if kind.Json? then t else HashOf(t); var column := Column(files, kind, max);
            Column(Saved(files, t), kind, max) == if entry.Some? then column[0 := entry] else column
    ensures forall f: File | f.slot >= max :: Look(Saved(files, t), f) == Look(files, f)
  {
  }

  lemma FlushedIsSaved(text: TextCodec, files: Files, max: nat, m: KvsMap, order: nat)
    requires max > 0 && RotateOk(files, max - 1)
    ensures Flushed(text, files, max, m, order) == Saved(Rotated(files, max - 1), TextOf(text, m, order))
  {
    var save := SaveSteps(text, m, order);
    RunConcat(files, RotateSteps(files, max - 1), save);
    if save != [] {
      RunTwo(Rotated(files, max - 1), save[0], save[1]);
    }
  }
}
