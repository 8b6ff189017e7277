/** The snapshot files after a flush that was cut short after any of its file changes: what is
    still there, what loads, and when the store can go on flushing. */
module CrashStates {
  import opened Values
  import opened Storage
  import opened Adler32
  import opened JsonCodec
  import opened Rotation
  import opened RustBackend
  import opened History

  /** Where a flush was cut: the slots from which the json and the hash family have moved up, and
      how many of the two files of the new snapshot are written. */
  datatype Cut = Cut(jsonFrom: nat, hashFrom: nat, written: nat)

  predicate CutInRange(cut: Cut, max: nat, t: Option<Bytes>) {
    && cut.hashFrom <= cut.jsonFrom <= cut.hashFrom + 1 && cut.jsonFrom < max
    && cut.written <= 2 && (cut.written > 0 ==> cut.jsonFrom == cut.hashFrom == 0 && t.Some?)
  }

  ghost predicate AtCut(files: Files, now: Files, max: nat, t: Option<Bytes>, cut: Cut) {
    && CutInRange(cut, max, t)
    && forall k: nat :: SlotAtCut(files, now, max, t, cut, k)
  }

  predicate SlotAtCut(files: Files, now: Files, max: nat, t: Option<Bytes>, cut: Cut, k: nat) {
    if k >= max then
      Look(now, File(k, Json)) == Look(files, File(k, Json)) && Look(now, File(k, Hash)) == Look(files, File(k, Hash))
    else
      && Look(now, File(k, Json)) ==
           (if k == 0 && cut.written >= 1 then t else MovedFile(files, Json, max, cut.jsonFrom, k))
      && Look(now, File(k, Hash)) ==
           (if k == 0 && cut.written >= 2 then HashOf(t) else MovedFile(files, Hash, max, cut.hashFrom, k))
  }

  /** A snapshot is torn when its hash file has moved up and its json file has not. */
  predicate Torn(cut: Cut) {
    cut.hashFrom < cut.jsonFrom
  }

  lemma ShiftedIsCut(files: Files, now: Files, max: nat, t: Option<Bytes>, lo: nat, lo': nat)
    requires max > 0 && lo' <= lo < max && lo <= lo' + 1
    requires Shifted(files, now, max - 1, lo, lo')
    ensures AtCut(files, now, max, t, Cut(lo, lo', 0))
  {
    forall k: nat ensures SlotAtCut(files, now, max, t, Cut(lo, lo', 0), k) {
      if k < max {
        ShiftedSlot(files, now, max - 1, lo, lo', k);
      }
    }
  }

  lemma SavePrefixIsCut(files: Files, rotated: Files, max: nat, t: Bytes, written: nat)
    requires max > 0 && 1 <= written <= 2 && AtCut(files, rotated, max, Some(t), Cut(0, 0, 0))
    ensures var save := [Write(File(0, Json), t), Write(File(0, Hash), HashBytes(Checksum(t)))];
            AtCut(files, Run(rotated, save[..written]), max, Some(t), Cut(0, 0, written))
  {
    var save := [Write(File(0, Json), t), Write(File(0, Hash), HashBytes(Checksum(t)))];
    assert save[..1] == [save[0]] && save[..2] == save;
    RunOne(rotated, save[0]);
    RunTwo(rotated, save[0], save[1]);
    var now := Run(rotated, save[..written]);
    forall k: nat ensures SlotAtCut(files, now, max, Some(t), Cut(0, 0, written), k) {
      assert SlotAtCut(files, rotated, max, Some(t), Cut(0, 0, 0), k);
    }
  }

  /** Every prefix of a flush is such a cut, a torn snapshot was a pair before, and a snapshot is torn
      or half written exactly after an odd number of file changes. */
  lemma PrefixIsCut(text: TextCodec, files: Files, max: nat, m: KvsMap, order: nat, p: nat) returns (cut: Cut)
    requires max > 0 && RotateOk(files, max - 1) && p <= |FlushSteps(text, files, max, m, order)|
    ensures AtCut(files, Run(files, FlushSteps(text, files, max, m, order)[..p]), max, TextOf(text, m, order), cut)
    ensures Torn(cut) ==> File(cut.hashFrom, Json) in files && File(cut.hashFrom, Hash) in files
    ensures Torn(cut) || cut.written == 1 <==> p % 2 == 1
    ensures var rotate := |RotateSteps(files, max - 1)|; cut.written == if p <= rotate then 0 else p - rotate
  {
    if p <= |RotateSteps(files, max - 1)| {
      cut := CutWhileRotating(text, files, max, m, order, p);
    } else {
      cut := CutWhileSaving(text, files, max, m, order, p);
    }
  }

  lemma CutWhileRotating(text: TextCodec, files: Files, max: nat, m: KvsMap, order: nat, p: nat) returns (cut: Cut)
    requires max > 0 && RotateOk(files, max - 1) && p <= |RotateSteps(files, max - 1)|
    ensures AtCut(files, Run(files, FlushSteps(text, files, max, m, order)[..p]), max, TextOf(text, m, order), cut)
    ensures Torn(cut) ==> File(cut.hashFrom, Json) in files && File(cut.hashFrom, Hash) in files
    ensures cut.written == 0 && (Torn(cut) <==> p % 2 == 1)
  {
    var rotate := RotateSteps(files, max - 1);
    assert FlushSteps(text, files, max, m, order)[..p] == rotate[..p];
    var lo, lo' := RotationPrefix(files, max - 1, p);
    ShiftedIsCut(files, Run(files, rotate[..p]), max, TextOf(text, m, order), lo, lo');
    cut := Cut(lo, lo', 0);
  }

  lemma SavePrefixRuns(text: TextCodec, files: Files, max: nat, m: KvsMap, order: nat, written: nat)
    requires max > 0 && RotateOk(files, max - 1) && written <= |SaveSteps(text, m, order)|
    ensures var p := |RotateSteps(files, max - 1)| + written;
            Run(files, FlushSteps(text, files, max, m, order)[..p])
            == Run(Rotated(files, max - 1), SaveSteps(text, m, order)[..written])
  {
    var rotate, save := RotateSteps(files, max - 1), SaveSteps(text, m, order);
    assert FlushSteps(text, files, max, m, order)[..|rotate| + written] == rotate + save[..written];
    RunConcat(files, rotate, save[..written]);
  }

  lemma CutWhileSaving(text: TextCodec, files: Files, max: nat, m: KvsMap, order: nat, p: nat) returns (cut: Cut)
    requires max > 0 && RotateOk(files, max - 1)
    requires |RotateSteps(files, max - 1)| < p <= |FlushSteps(text, files, max, m, order)|
    ensures AtCut(files, Run(files, FlushSteps(text, files, max, m, order)[..p]), max, TextOf(text, m, order), cut)
    ensures !Torn(cut) && cut.written == p - |RotateSteps(files, max - 1)|
    ensures cut.written == 1 <==> p % 2 == 1
  {
    var written, t := p - |RotateSteps(files, max - 1)|, TextOf(text, m, order);
    SavePrefixRuns(text, files, max, m, order, written);
    RotateStepsArePairs(files, max - 1);
    SavedAtCut(files, max, t.value, written);
    cut := Cut(0, 0, written);
  }

  lemma SavedAtCut(files: Files, max: nat, t: Bytes, written: nat)
    requires max > 0 && RotateOk(files, max - 1) && 1 <= written <= 2
    ensures var save := [Write(File(0, Json), t), Write(File(0, Hash), HashBytes(Checksum(t)))];
            AtCut(files, Run(Rotated(files, max - 1), save[..written]), max, Some(t), Cut(0, 0, written))
  {
    RotationShifts(files, max - 1);
    ShiftedIsCut(files, Rotated(files, max - 1), max, Some(t), 0, 0);
    SavePrefixIsCut(files, Rotated(files, max - 1), max, t, written);
  }

  // ---------- Nothing is lost

  /** Every old snapshot below the last slot is still whole, in its own slot or in the next one;
      only a torn one has its json file here and its hash file there. */
  lemma OldSnapshotsSurvive(text: TextCodec, files: Files, window: seq<Option<KvsMap>>, now: Files,
                            t: Option<Bytes>, cut: Cut, i: nat)
    requires Represents(text, files, window) && i + 1 < |window| && window[i].Some?
    requires AtCut(files, now, |window|, t, cut)
    ensures !Torn(cut) || i != cut.hashFrom ==>
              SlotHolds(text, now, i, window[i]) || SlotHolds(text, now, i + 1, window[i])
    ensures Torn(cut) && i == cut.hashFrom ==>
              && Look(now, File(i, Json)) == Look(files, File(i, Json))
              && Look(now, File(i + 1, Hash)) == Look(files, File(i, Hash))
  {
    assert SlotHolds(text, files, i, window[i]);
    assert SlotAtCut(files, now, |window|, t, cut, i);
    assert SlotAtCut(files, now, |window|, t, cut, i + 1);
  }

  // ---------- What a slot can hold

  /** Both files are there, but the json file is the last slot's old one and the hash file that of
      the slot below. */
  ghost predicate Mixed(text: TextCodec, files: Files, window: seq<Option<KvsMap>>, now: Files, k: nat)
  {
    && k > 0 && k + 1 == |window| && window[k].Some? && window[k - 1].Some?
    && Look(files, File(k, Json)).Some? && TextStandsFor(text, Look(files, File(k, Json)).value, window[k].value)
    && Look(now, File(k, Json)) == Look(files, File(k, Json))
    && Look(now, File(k, Hash)) == Look(files, File(k - 1, Hash))
    && Look(files, File(k - 1, Hash)) == HashOf(Look(files, File(k - 1, Json)))
  }

  /** Every slot is empty, or holds a whole snapshot (its old one, the one from the slot below, or
      the new one), or has only one file; only the last slot can hold a mixed pair. */
  lemma SlotsAtCut(text: TextCodec, files: Files, window: seq<Option<KvsMap>>, now: Files, m: KvsMap,
                   t: Option<Bytes>, cut: Cut, k: nat)
    requires Represents(text, files, window) && k < |window| && |window| >= 2
    requires t.Some? ==> TextStandsFor(text, t.value, m)
    requires AtCut(files, now, |window|, t, cut)
    ensures || SlotHolds(text, now, k, None)
            || SlotHolds(text, now, k, window[k])
            || (k > 0 && SlotHolds(text, now, k, window[k - 1]))
            || (k == 0 && SlotHolds(text, now, k, Some(m)))
            || Half(now, k)
            || (Torn(cut) && Mixed(text, files, window, now, k))
  {
    assert SlotHolds(text, files, k, window[k]);
    if k > 0 { assert SlotHolds(text, files, k - 1, window[k - 1]); }
    assert SlotAtCut(files, now, |window|, t, cut, k);
  }

  /** A load that succeeds after a crash gives a map that some flush was handed: the slot's old
      one, the one from the slot below, or the new one. A mixed pair is refused unless the two texts
      have the same checksum. */
  lemma LoadsOnlyFlushedMaps(text: TextCodec, files: Files, window: seq<Option<KvsMap>>, now: Files, m: KvsMap,
                             t: Option<Bytes>, cut: Cut, k: nat)
    requires Represents(text, files, window) && k < |window| && |window| >= 2
    requires t.Some? ==> TextStandsFor(text, t.value, m)
    requires AtCut(files, now, |window|, t, cut)
    ensures LoadSlot(text, now, k).Ok? ==>
              var r := LoadSlot(text, now, k).value;
              || (window[k].Some? && r == RoundedMap(window[k].value))
              || (k > 0 && window[k - 1].Some? && r == RoundedMap(window[k - 1].value))
              || (k == 0 && r == RoundedMap(m))
    ensures Mixed(text, files, window, now, k) ==>
              LoadSlot(text, now, k) ==
                if Checksum(files[File(k, Json)]) == Checksum(files[File(k - 1, Json)])
                then Ok(RoundedMap(window[k].value)) else Err(ValidationFailed)
  {
    SlotsAtCut(text, files, window, now, m, t, cut, k);
    if Mixed(text, files, window, now, k) {
      MixedPairLoads(text, files, window, now, k);
    } else if SlotHolds(text, now, k, window[k]) {
      LoadsWhole(text, now, k, window[k]);
    } else if k > 0 && SlotHolds(text, now, k, window[k - 1]) {
      LoadsWhole(text, now, k, window[k - 1]);
    } else if k == 0 && SlotHolds(text, now, k, Some(m)) {
      LoadsWhole(text, now, k, Some(m));
    }
  }

  lemma LoadsWhole(text: TextCodec, files: Files, k: nat, entry: Option<KvsMap>)
    requires SlotHolds(text, files, k, entry)
    ensures LoadSlot(text, files, k)
            == if entry.Some? then Ok(RoundedMap(entry.value)) else Err(FileNotFound)
  {
    if entry.Some? {
      AcceptedHashFiles(files[File(k, Json)], files[File(k, Hash)]);
      RoundTrip(Object(entry.value));
    }
  }

  lemma MixedPairLoads(text: TextCodec, files: Files, window: seq<Option<KvsMap>>, now: Files, k: nat)
    requires Represents(text, files, window) && Mixed(text, files, window, now, k)
    ensures LoadSlot(text, now, k) ==
              if Checksum(files[File(k, Json)]) == Checksum(files[File(k - 1, Json)])
              then Ok(RoundedMap(window[k].value)) else Err(ValidationFailed)
  {
    assert SlotHolds(text, files, k - 1, window[k - 1]);
    var a, b := Checksum(files[File(k, Json)]), Checksum(files[File(k - 1, Json)]);
    HashBytesRoundTrip(b);
    RoundTrip(Object(window[k].value));
  }

  // ---------- Going on after a crash

  /** The store can flush again exactly when the flush was cut between two snapshots: not while one
      was torn, and not between the json and the hash file of the new one. */
  lemma FlushableAfterCrash(text: TextCodec, files: Files, window: seq<Option<KvsMap>>, now: Files,
                            t: Option<Bytes>, cut: Cut)
    requires Represents(text, files, window) && |window| >= 2
    requires AtCut(files, now, |window|, t, cut)
    requires Torn(cut) ==> window[cut.hashFrom].Some?
    ensures RotateOk(now, |window| - 1) <==> !Torn(cut) && cut.written != 1
  {
    var n := |window| - 1;
    BlockedByHighestHalf(now, n);
    if !Torn(cut) && cut.written != 1 {
      forall k | 0 <= k < n ensures !Half(now, k) {
        NotHalfBetween(text, files, window, now, t, cut, k);
      }
    } else {
      var k := if Torn(cut) then cut.hashFrom else 0;
      assert SlotHolds(text, files, k, window[k]);
      assert SlotAtCut(files, now, n + 1, t, cut, k);
      assert Half(now, k);
    }
  }

  lemma NotHalfBetween(text: TextCodec, files: Files, window: seq<Option<KvsMap>>, now: Files,
                       t: Option<Bytes>, cut: Cut, k: nat)
    requires Represents(text, files, window) && |window| >= 2 && k + 1 < |window|
    requires AtCut(files, now, |window|, t, cut) && !Torn(cut) && (cut.written == 0 || cut.written == 2)
    ensures !Half(now, k)
  {
    assert SlotHolds(text, files, k, window[k]);
    if k > 0 { assert SlotHolds(text, files, k - 1, window[k - 1]); }
    assert SlotAtCut(files, now, |window|, t, cut, k);
  }

  /** All of it together, for a flush cut after any number p of its file changes: what loads, where
      each old snapshot is, and that the store can flush again if and only if p is even. */
  lemma AfterAnyCrash(text: TextCodec, files: Files, window: seq<Option<KvsMap>>, m: KvsMap, order: nat, p: nat, k: nat)
    returns (cut: Cut)
    requires text.RoundTrips() && text.PrintsFinite()
    requires Represents(text, files, window) && |window| >= 2 && k < |window|
    requires p <= |FlushSteps(text, files, |window|, m, order)|
    ensures var now := Run(files, FlushSteps(text, files, |window|, m, order)[..p]);
            && AtCut(files, now, |window|, TextOf(text, m, order), cut)
            && (LoadSlot(text, now, k).Ok? ==>
                  var r := LoadSlot(text, now, k).value;
                  || (window[k].Some? && r == RoundedMap(window[k].value))
                  || (k > 0 && window[k - 1].Some? && r == RoundedMap(window[k - 1].value))
                  || (k == 0 && r == RoundedMap(m)))
            && (window[k].Some? && k + 1 < |window| && !(Torn(cut) && k == cut.hashFrom) ==>
                  SlotHolds(text, now, k, window[k]) || SlotHolds(text, now, k + 1, window[k]))
            && (Torn(cut) && k == cut.hashFrom ==>
                  && Look(now, File(k, Json)) == Look(files, File(k, Json))
                  && Look(now, File(k + 1, Hash)) == Look(files, File(k, Hash)))
            && (Torn(cut) || cut.written == 1 <==> p % 2 == 1)
            && (RotateOk(now, |window| - 1) <==> p % 2 == 0)
  {
    var max, t := |window|, TextOf(text, m, order);
    NoneHalf(text, files, window, max - 1);
    PrintedTextStands(text, m, order);
    cut := PrefixIsCut(text, files, max, m, order, p);
    var now := Run(files, FlushSteps(text, files, max, m, order)[..p]);
    if Torn(cut) { assert SlotHolds(text, files, cut.hashFrom, window[cut.hashFrom]); }
    LoadsOnlyFlushedMaps(text, files, window, now, m, t, cut, k);
    if window[k].Some? && k + 1 < max { OldSnapshotsSurvive(text, files, window, now, t, cut, k); }
    FlushableAfterCrash(text, files, window, now, t, cut);
  }

  // ---------- One snapshot only

  /** With a single slot there is no rotation, and a cut between the two writes leaves the new text
      with the old hash: the only snapshot is unreadable unless the two texts have the same
      checksum. */
  lemma SingleSlotCut(text: TextCodec, files: Files, previous: KvsMap, m: KvsMap, order: nat, t: Bytes)
    requires text.RoundTrips() && text.PrintsFinite()
    requires Represents(text, files, [Some(previous)]) && TextOf(text, m, order) == Some(t)
    ensures FlushSteps(text, files, 1, m, order)
            == [Write(File(0, Json), t), Write(File(0, Hash), HashOf(Some(t)).value)]
    ensures File(0, Json) in files
    ensures LoadSlot(text, Run(files, [Write(File(0, Json), t)]), 0) ==
              if Checksum(t) == Checksum(files[File(0, Json)]) then Ok(RoundedMap(m)) else Err(ValidationFailed)
  {
    assert SlotHolds(text, files, 0, [Some(previous)][0]);
    assert RotateSteps(files, 0) == [];
    RunOne(files, Write(File(0, Json), t));
    HashBytesRoundTrip(Checksum(files[File(0, Json)]));
    RoundTrip(Object(m));
  }
}
