/** A flush that was cut between two snapshots, followed by flushes that succeed: where every old
    snapshot is then, and which one is lost. */
module Recovery {
  import opened Values
  import opened Storage
  import opened Timeline
  import opened JsonCodec
  import opened Rotation
  import opened History
  import opened CrashStates
  import opened SelfHealing

  // ---------- The cut

  /** What the slots stand for after a cut between two snapshots. */
  function CutRow(window: seq<Option<KvsMap>>, m: KvsMap, cut: Cut): (r: seq<Option<KvsMap>>)
    ensures |r| == |window|
  {
    if cut.written == 2 then Advance(window, 0, Some(m)) else Shift(window, cut.jsonFrom)
  }

  lemma EvenCutIsRow(text: TextCodec, files: Files, window: seq<Option<KvsMap>>, now: Files, m: KvsMap,
                     t: Option<Bytes>, cut: Cut)
    requires Represents(text, files, window) && window != []
    requires t.Some? ==> TextStandsFor(text, t.value, m)
    requires AtCut(files, now, |window|, t, cut) && !Torn(cut) && cut.written != 1
    ensures Represents(text, now, CutRow(window, m, cut))
  {
    forall k: nat | k < |window| ensures SlotHolds(text, now, k, CutRow(window, m, cut)[k]) {
      EvenCutSlot(text, files, window, now, m, t, cut, k);
    }
    forall f: File | f in now ensures f.slot < |window| {
      assert SlotAtCut(files, now, |window|, t, cut, f.slot);
      assert f == File(f.slot, f.kind) && (f.kind.Json? || f.kind.Hash?);
    }
  }

  lemma EvenCutSlot(text: TextCodec, files: Files, window: seq<Option<KvsMap>>, now: Files, m: KvsMap,
                    t: Option<Bytes>, cut: Cut, k: nat)
    requires Represents(text, files, window) && k < |window|
    requires t.Some? ==> TextStandsFor(text, t.value, m)
    requires AtCut(files, now, |window|, t, cut) && !Torn(cut) && cut.written != 1
    ensures SlotHolds(text, now, k, CutRow(window, m, cut)[k])
  {
    assert SlotAtCut(files, now, |window|, t, cut, k);
    if k == 0 && cut.written == 2 {
      assert CutRow(window, m, cut)[0] == Some(m);
    } else {
      assert CutRow(window, m, cut)[k] == Shift(window, cut.jsonFrom)[k];
      MovedSlot(text, files, window, now, cut.jsonFrom, k);
    }
  }

  lemma MovedSlot(text: TextCodec, files: Files, window: seq<Option<KvsMap>>, now: Files, lo: nat, k: nat)
    requires Represents(text, files, window) && k < |window| && lo < |window|
    requires Look(now, File(k, Json)) == MovedFile(files, Json, |window|, lo, k)
    requires Look(now, File(k, Hash)) == MovedFile(files, Hash, |window|, lo, k)
    ensures SlotHolds(text, now, k, Shift(window, lo)[k])
  {
    assert SlotHolds(text, files, k, window[k]);
    if k > 0 { assert SlotHolds(text, files, k - 1, window[k - 1]); }
  }

  // ---------- The flushes after it

  lemma RowOneMore(window: seq<Option<KvsMap>>, maps: seq<KvsMap>)
    requires maps != []
    ensures var n := |maps| - 1;
            AdvanceAll(window, 0, Entries(maps))
            == Advance(AdvanceAll(window, 0, Entries(maps[..n])), 0, Entry(maps[n]))
  {
    var n := |maps| - 1;
    AdvanceAllOneMore(window, 0, Entries(maps[..n]), Entry(maps[n]));
    EntriesOneMore(maps[..n], maps[n]);
    assert maps[..n] + [maps[n]] == maps;
  }

  lemma {:induction false} FlushManyKeepsRow(text: TextCodec, files: Files, window: seq<Option<KvsMap>>,
                                             maps: seq<KvsMap>, orders: seq<nat>)
    requires text.RoundTrips() && text.PrintsFinite() && |orders| == |maps|
    requires window != [] && Represents(text, files, window)
    ensures Represents(text, FlushMany(text, files, |window|, maps, orders), AdvanceAll(window, 0, Entries(maps)))
    decreases |maps|
  {
    if maps != [] {
      var n := |maps| - 1;
      var row := AdvanceAll(window, 0, Entries(maps[..n]));
      FlushManyOneMore(text, files, |window|, maps, orders);
      FlushManyKeepsRow(text, files, window, maps[..n], orders[..n]);
      FlushKeepsRepresentation(text, FlushMany(text, files, |window|, maps[..n], orders[..n]), row, maps[n], orders[n]);
      RowOneMore(window, maps);
    }
  }

  /** Where the old snapshots are after a cut before the new snapshot was written and some more
      flushes: those below the place where rotation was cut have moved up by the number of flushes,
      those above by one more, with a hole between. */
  lemma RowAfterCut(window: seq<Option<KvsMap>>, m: KvsMap, cut: Cut, maps: seq<KvsMap>, k: nat)
    requires k + 1 < |window| && cut.written == 0 && cut.jsonFrom < |window|
    ensures AdvanceAll(CutRow(window, m, cut), 0, Present(maps))[k]
            == if k < |maps| then Some(maps[|maps| - 1 - k])
               else if k - |maps| < cut.jsonFrom then window[k - |maps|]
               else if k - |maps| == cut.jsonFrom then None
               else window[k - |maps| - 1]
  {
    var row := CutRow(window, m, cut);
    var after := AdvanceAll(row, 0, Present(maps));
    if k < |maps| {
      LatestPushesStand(row, maps, after);
    } else {
      OldEntriesMoveUp(row, maps, after, k - |maps|);
      assert row[k - |maps|] == Shift(window, cut.jsonFrom)[k - |maps|];
    }
  }

  /** The last slot, for a row that was full. */
  lemma LastAfterCut(window: seq<Option<KvsMap>>, m: KvsMap, cut: Cut, maps: seq<KvsMap>)
    requires |maps| < |window| && cut.written == 0 && cut.jsonFrom < |window|
    requires forall i :: 0 <= i < |window| ==> window[i].Some?
    ensures var i := |window| - 1 - |maps|;
            AdvanceAll(CutRow(window, m, cut), 0, Present(maps))[|window| - 1]
            == if i <= cut.jsonFrom then window[i] else window[i - 1]
  {
    var row, i, lo := CutRow(window, m, cut), |window| - 1 - |maps|, cut.jsonFrom;
    LastSlotKeepsNewest(row, maps, AdvanceAll(row, 0, Present(maps)), i);
    NewestIsFirstPresent(row[i..], if i == lo && lo + 1 < |window| then 1 else 0);
  }

  /** The old snapshots of a full row around a hole, after some more maps were flushed. The snapshots
      above the hole have moved one slot further than those below; until the hole has moved out, the
      count ends there, and the snapshots above it cannot be restored. */
  ghost predicate AroundHole(window: seq<Option<KvsMap>>, hole: nat, maps: seq<KvsMap>, row: seq<Option<KvsMap>>)
    requires |row| == |window|
  {
    && (forall k: nat :: k + 1 < |window| ==>
          row[k] == if k < |maps| then Some(maps[|maps| - 1 - k])
                    else if k - |maps| < hole then window[k - |maps|]
                    else if k - |maps| == hole then None
                    else window[k - |maps| - 1])
    && (|maps| < |window| ==>
          var i := |window| - 1 - |maps|;
          row[|window| - 1] == if i <= hole then window[i] else if i > 0 then window[i - 1] else None)
    && (|maps| + hole + 1 < |window| ==> Leading(row) == |maps| + hole)
  }

  lemma RowsAroundHole(window: seq<Option<KvsMap>>, m: KvsMap, cut: Cut, maps: seq<KvsMap>, row: seq<Option<KvsMap>>)
    requires window != [] && cut.written == 0 && cut.jsonFrom < |window|
    requires forall i :: 0 <= i < |window| ==> window[i].Some?
    requires row == AdvanceAll(CutRow(window, m, cut), 0, Present(maps))
    ensures AroundHole(window, cut.jsonFrom, maps, row)
  {
    forall k: nat | k + 1 < |window|
      ensures row[k] == if k < |maps| then Some(maps[|maps| - 1 - k])
                        else if k - |maps| < cut.jsonFrom then window[k - |maps|]
                        else if k - |maps| == cut.jsonFrom then None
                        else window[k - |maps| - 1]
    {
      RowAfterCut(window, m, cut, maps, k);
    }
    if |maps| < |window| {
      LastAfterCut(window, m, cut, maps);
    }
    if |maps| + cut.jsonFrom + 1 < |window| {
      LeadingIs(row, |maps| + cut.jsonFrom);
    }
  }

  lemma FlushesAfterRow(text: TextCodec, files: Files, row: seq<Option<KvsMap>>, maps: seq<KvsMap>, orders: seq<nat>)
    returns (after: seq<Option<KvsMap>>)
    requires text.RoundTrips() && text.PrintsFinite() && |orders| == |maps|
    requires row != [] && Represents(text, files, row) && forall x | x in maps :: FiniteValue(Object(x))
    ensures after == AdvanceAll(row, 0, Present(maps))
    ensures Represents(text, FlushMany(text, files, |row|, maps, orders), after)
  {
    FlushManyKeepsRow(text, files, row, maps, orders);
    PrintableEntries(maps);
    after := AdvanceAll(row, 0, Present(maps));
  }

  /** From a full row, a flush is cut after p = 2 * (|window| - 1 - hole) of its file changes, before the
      new snapshot is written, and then other maps are flushed: the slots hold the old snapshots around
      the hole, moved up. Every even p up to the end of the rotation is of this form. */
  lemma AfterCutAndFlushes(text: TextCodec, files: Files, window: seq<Option<KvsMap>>, m: KvsMap, order: nat,
                           hole: nat, maps: seq<KvsMap>, orders: seq<nat>)
    returns (now: Files, row: seq<Option<KvsMap>>)
    requires text.RoundTrips() && text.PrintsFinite() && |orders| == |maps|
    requires hole < |window| && Represents(text, files, window) && forall i :: 0 <= i < |window| ==> window[i].Some?
    requires forall x | x in maps :: FiniteValue(Object(x))
    ensures var p := 2 * (|window| - 1 - hole);
            p <= |FlushSteps(text, files, |window|, m, order)|
            && now == Run(files, FlushSteps(text, files, |window|, m, order)[..p])
    ensures |row| == |window| && Represents(text, FlushMany(text, now, |window|, maps, orders), row)
    ensures AroundHole(window, hole, maps, row)
  {
    PrintedTextStands(text, m, order);
    now := FilesAtHole(text, files, window, m, order, hole);
    row := FlushesAfterRow(text, now, CutRow(window, m, Cut(hole, hole, 0)), maps, orders);
    RowsAroundHole(window, m, Cut(hole, hole, 0), maps, row);
  }

  lemma FilesAtHole(text: TextCodec, files: Files, window: seq<Option<KvsMap>>, m: KvsMap, order: nat, hole: nat)
    returns (now: Files)
    requires hole < |window| && Represents(text, files, window)
    requires forall i :: 0 <= i < |window| ==> window[i].Some?
    requires var t := TextOf(text, m, order); t.Some? ==> TextStandsFor(text, t.value, m)
    ensures var p := 2 * (|window| - 1 - hole);
            p <= |FlushSteps(text, files, |window|, m, order)|
            && now == Run(files, FlushSteps(text, files, |window|, m, order)[..p])
    ensures Represents(text, now, CutRow(window, m, Cut(hole, hole, 0)))
  {
    now := RowAtHole(text, files, window, m, TextOf(text, m, order), hole);
    RotationComesFirst(text, files, |window|, m, order, 2 * (|window| - 1 - hole));
  }

  lemma RowAtHole(text: TextCodec, files: Files, window: seq<Option<KvsMap>>, m: KvsMap, t: Option<Bytes>, hole: nat)
    returns (now: Files)
    requires hole < |window| && Represents(text, files, window)
    requires forall i :: 0 <= i < |window| ==> window[i].Some?
    requires t.Some? ==> TextStandsFor(text, t.value, m)
    ensures var p := 2 * (|window| - 1 - hole); var rotate := RotateSteps(files, |window| - 1);
            p <= |rotate| && now == Run(files, rotate[..p])
    ensures Represents(text, now, CutRow(window, m, Cut(hole, hole, 0)))
  {
    FullRowOfPairs(text, files, window);
    now := FullRowCut(files, |window|, t, hole);
    EvenCutIsRow(text, files, window, now, m, t, Cut(hole, hole, 0));
  }

  /** In a full row each round of the rotation makes two renames. */
  lemma FullRowCut(files: Files, max: nat, t: Option<Bytes>, hole: nat) returns (now: Files)
    requires hole < max && forall k: nat | k < max :: Pair(files, k)
    ensures var p := 2 * (max - 1 - hole);
            p <= |RotateSteps(files, max - 1)| && now == Run(files, RotateSteps(files, max - 1)[..p])
    ensures AtCut(files, now, max, t, Cut(hole, hole, 0))
  {
    now := FullRowPrefix(files, max - 1, hole);
    ShiftedIsCut(files, now, max, t, hole, hole);
  }

  lemma FullRowOfPairs(text: TextCodec, files: Files, window: seq<Option<KvsMap>>)
    requires Represents(text, files, window) && forall i :: 0 <= i < |window| ==> window[i].Some?
    ensures forall k: nat | k < |window| :: Pair(files, k)
  {
    forall k: nat | k < |window| ensures Pair(files, k) {
      assert SlotHolds(text, files, k, window[k]);
    }
  }

  lemma RotationComesFirst(text: TextCodec, files: Files, max: nat, m: KvsMap, order: nat, p: nat)
    requires max > 0 && p <= |RotateSteps(files, max - 1)|
    ensures p <= |FlushSteps(text, files, max, m, order)|
    ensures FlushSteps(text, files, max, m, order)[..p] == RotateSteps(files, max - 1)[..p]
  {
  }

  predicate Pair(files: Files, slot: nat) {
    File(slot, Json) in files && File(slot, Hash) in files
  }

  lemma RoundKeepsPairs(files: Files, n: nat)
    requires n > 0 && forall k: nat | k < n :: Pair(files, k)
    ensures forall k: nat | k < n - 1 :: Pair(OneRound(files, n), k)
  {
    assert Pair(files, n - 1);
    forall k: nat | k < n - 1 ensures Pair(OneRound(files, n), k) {
      assert Pair(files, k);
      LowerSlotStays(files, n, k);
    }
  }

  lemma {:induction false} FullRowPrefix(files: Files, n: nat, lo: nat) returns (now: Files)
    requires lo <= n && forall k: nat | k < n :: Pair(files, k)
    ensures |RotateSteps(files, n)| == 2 * n && now == Run(files, RotateSteps(files, n)[..2 * (n - lo)])
    ensures Shifted(files, now, n, lo, lo)
    decreases n
  {
    if n > 0 {
      var next := OneRound(files, n);
      assert Pair(files, n - 1);
      RoundKeepsPairs(files, n);
      now := FullRowPrefix(next, n - 1, if lo == n then n - 1 else lo);
      if lo < n {
        PrefixAfterOneRound(files, n, 2 * (n - lo));
        ShiftedOneRound(files, n, now, lo, lo);
      }
    }
    if lo == n {
      now := files;
      NothingShifted(files, n);
    }
  }
}
