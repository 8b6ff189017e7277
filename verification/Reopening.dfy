/** What the next process finds when it opens an instance of the Rust store: after a run, and after
    a flush that was cut short. */
module Reopening {
  import opened Values
  import opened Storage
  import opened JsonCodec
  import opened Rotation
  import opened RustBackend
  import opened History
  import opened CrashStates
  import InstancePool

  /** The map a build starts with, given its load mode and these files. */
  function OpenedMap(text: TextCodec, files: Files, mode: InstancePool.Mode): Result<KvsMap> {
    InstancePool.LoadUnder(mode, LoadSlot(text, files, 0))
  }

  /** After a run, opening gives the last flushed map; with nothing flushed, an empty map or
      FileNotFound, as the mode says. */
  lemma OpensLastFlush(text: TextCodec, files: Files, window: seq<Option<KvsMap>>)
    requires Represents(text, files, window)
    ensures window != [] && window[0].Some? ==>
              && OpenedMap(text, files, InstancePool.Required) == Ok(RoundedMap(window[0].value))
              && OpenedMap(text, files, InstancePool.Optional) == Ok(RoundedMap(window[0].value))
    ensures window == [] || window[0].None? ==>
              && OpenedMap(text, files, InstancePool.Required) == Err(FileNotFound)
              && OpenedMap(text, files, InstancePool.Optional) == Ok(map[])
  {
    LoadsTheEntry(text, files, window, 0);
  }

  /** What a later process opens is the flushed map itself exactly when its integers survive
      binary64. */
  lemma ReopenedMapIsExact(text: TextCodec, files: Files, window: seq<Option<KvsMap>>, mode: InstancePool.Mode)
    requires Represents(text, files, window) && window != [] && window[0].Some? && !mode.Ignored?
    ensures OpenedMap(text, files, mode) == Ok(window[0].value) <==> IntegersSurvive(Object(window[0].value))
  {
    OpensLastFlush(text, files, window);
    UnroundedIffSurvives(Object(window[0].value));
  }

  /** After a flush of at least two slots that was cut short, an optional load never fails: it gives
      the old map if slot 0 was not yet touched, the new map if both files are written, and silently
      an empty map in between, although the old snapshot is still on disk. */
  lemma OptionalLoadAfterCrash(text: TextCodec, files: Files, window: seq<Option<KvsMap>>, now: Files, m: KvsMap,
                               t: Option<Bytes>, cut: Cut)
    requires Represents(text, files, window) && |window| >= 2 && window[0].Some?
    requires t.Some? ==> TextStandsFor(text, t.value, m)
    requires AtCut(files, now, |window|, t, cut)
    ensures OpenedMap(text, now, InstancePool.Optional) ==
              if cut.hashFrom > 0 then Ok(RoundedMap(window[0].value))
              else if cut.written == 2 then Ok(RoundedMap(m))
              else Ok(map[])
    ensures cut.hashFrom == 0 && cut.written < 2 ==>
              && OpenedMap(text, now, InstancePool.Required) == Err(FileNotFound)
              && Look(now, File(if Torn(cut) then 0 else 1, Json)) == Look(files, File(0, Json))
              && Look(now, File(1, Hash)) == Look(files, File(0, Hash))
  {
    assert SlotHolds(text, files, 0, window[0]);
    assert SlotAtCut(files, now, |window|, t, cut, 0);
    assert SlotAtCut(files, now, |window|, t, cut, 1);
    if cut.hashFrom > 0 {
      LoadsWhole(text, now, 0, window[0]);
    } else if cut.written == 2 {
      LoadsWhole(text, now, 0, Some(m));
    }
  }

  /** While a flush rotates, slot 0 keeps its hash file until the last two renames. */
  lemma {:induction false} SlotZeroMovesLast(files: Files, n: nat, p: nat)
    requires n > 0 && RotateOk(files, n) && File(0, Json) in files && File(0, Hash) in files
    requires p <= |RotateSteps(files, n)|
    ensures |RotateSteps(files, n)| >= 2
    ensures File(0, Hash) in Run(files, RotateSteps(files, n)[..p]) <==> p + 2 <= |RotateSteps(files, n)|
    decreases n
  {
    var steps := RotateSteps(files, n);
    if n == 1 {
      SlotZeroMoves(files, p);
    } else if File(n - 1, Json) !in files {
      SlotZeroMovesLast(files, n - 1, p);
    } else {
      var next := OneRound(files, n);
      OneRoundBlocked(files, n);
      LowerSlotStays(files, n, 0);
      SlotZeroMovesLast(next, n - 1, if p >= 2 then p - 2 else 0);
      if p >= 2 {
        PrefixAfterOneRound(files, n, p);
      } else if p == 1 {
        assert steps[..1] == [MoveUp(n)[0]];
        RunOne(files, MoveUp(n)[0]);
      }
    }
  }

  lemma SlotZeroMoves(files: Files, p: nat)
    requires File(0, Json) in files && File(0, Hash) in files && p <= 2
    ensures RotateSteps(files, 1) == MoveUp(1)
    ensures File(0, Hash) in Run(files, MoveUp(1)[..p]) <==> p == 0
  {
    var moves := MoveUp(1);
    assert RotateSteps(Run(files, moves), 0) == [];
    assert moves[..0] == [] && moves[..1] == [moves[0]] && moves[..2] == moves;
    RunOne(files, moves[0]);
    RunTwo(files, moves[0], moves[1]);
  }

  /** The same by the number p of completed file changes: the optional load silently starts empty if
      and only if p is within the last rename of slot 0's hash file and the write of the new one. */
  lemma OptionalLoadAfterChanges(text: TextCodec, files: Files, window: seq<Option<KvsMap>>, m: KvsMap,
                                 order: nat, p: nat)
    requires text.RoundTrips() && text.PrintsFinite()
    requires Represents(text, files, window) && |window| >= 2 && window[0].Some?
    requires p <= |FlushSteps(text, files, |window|, m, order)|
    ensures var now := Run(files, FlushSteps(text, files, |window|, m, order)[..p]);
            var rotate := |RotateSteps(files, |window| - 1)|;
            && OpenedMap(text, now, InstancePool.Optional) ==
                 (if p < rotate - 1 then Ok(RoundedMap(window[0].value))
                  else if p < rotate + 2 then Ok(map[])
                  else Ok(RoundedMap(m)))
            && (rotate - 1 <= p < rotate + 2 ==> OpenedMap(text, now, InstancePool.Required) == Err(FileNotFound))
  {
    NoneHalf(text, files, window, |window| - 1);
    PrintedTextStands(text, m, order);
    OptionalLoadAtChange(text, files, window, m, order, p);
  }

  lemma OptionalLoadAtChange(text: TextCodec, files: Files, window: seq<Option<KvsMap>>, m: KvsMap,
                             order: nat, p: nat)
    requires Represents(text, files, window) && |window| >= 2 && window[0].Some? && RotateOk(files, |window| - 1)
    requires var t := TextOf(text, m, order); t.Some? ==> TextStandsFor(text, t.value, m)
    requires p <= |FlushSteps(text, files, |window|, m, order)|
    ensures var now := Run(files, FlushSteps(text, files, |window|, m, order)[..p]);
            var rotate := |RotateSteps(files, |window| - 1)|;
            && OpenedMap(text, now, InstancePool.Optional) ==
                 (if p < rotate - 1 then Ok(RoundedMap(window[0].value))
                  else if p < rotate + 2 then Ok(map[])
                  else Ok(RoundedMap(m)))
            && (rotate - 1 <= p < rotate + 2 ==> OpenedMap(text, now, InstancePool.Required) == Err(FileNotFound))
  {
    var max, t := |window|, TextOf(text, m, order);
    var now := Run(files, FlushSteps(text, files, max, m, order)[..p]);
    assert SlotHolds(text, files, 0, window[0]);
    var cut := CutOfChanges(text, files, max, m, order, p);
    OptionalLoadAfterCrash(text, files, window, now, m, t, cut);
  }

  lemma CutOfChanges(text: TextCodec, files: Files, max: nat, m: KvsMap, order: nat, p: nat) returns (cut: Cut)
    requires max >= 2 && RotateOk(files, max - 1) && File(0, Json) in files && File(0, Hash) in files
    requires p <= |FlushSteps(text, files, max, m, order)|
    ensures AtCut(files, Run(files, FlushSteps(text, files, max, m, order)[..p]), max, TextOf(text, m, order), cut)
    ensures var rotate := |RotateSteps(files, max - 1)|;
            && rotate >= 2 && (cut.hashFrom > 0 <==> p + 1 < rotate)
            && cut.written == if p <= rotate then 0 else p - rotate
  {
    var rotate := RotateSteps(files, max - 1);
    cut := PrefixIsCut(text, files, max, m, order, p);
    SlotZeroMovesLast(files, max - 1, if p <= |rotate| then p else 0);
    if p <= |rotate| {
      assert FlushSteps(text, files, max, m, order)[..p] == rotate[..p];
      SlotZeroAtCut(files, Run(files, rotate[..p]), max, TextOf(text, m, order), cut);
    }
  }

  lemma SlotZeroAtCut(files: Files, now: Files, max: nat, t: Option<Bytes>, cut: Cut)
    requires max >= 2 && AtCut(files, now, max, t, cut) && cut.written == 0 && File(0, Hash) in files
    ensures File(0, Hash) in now <==> cut.hashFrom > 0
  {
    assert SlotAtCut(files, now, max, t, cut, 0);
  }
}
