/** Damaged directories of the C++ store: its rotation never stops, so flushes heal any disk; and what
    becomes of a snapshot that a crash has split over two slots. */
module CppHealing {
  import opened Values
  import opened Storage
  import opened Timeline
  import opened JsonCodec
  import opened CppStore
  import SelfHealing

  // ---------- Flushes on any disk

  /** What the flushes of these texts put into slot 0 of a family. */
  function Pushed(kind: Kind, texts: seq<Bytes>): (r: seq<Bytes>)
    ensures |r| == |texts|
  {
    if kind.Json? then texts else SelfHealing.HashesOf(texts)
  }

  lemma PushedOneMore(kind: Kind, texts: seq<Bytes>)
    requires texts != []
    ensures var n := |texts| - 1;
            Present(Pushed(kind, texts)) == Present(Pushed(kind, texts[..n])) + [Some(Pushed(kind, [texts[n]])[0])]
  {
  }

  lemma {:induction false} CppFlushManyAdvances(files: Files, max: nat, texts: seq<Bytes>, kind: Kind)
    ensures Column(CppFlushMany(files, max, texts), kind, max + 1)
            == AdvanceAll(Column(files, kind, max + 1), 0, Present(Pushed(kind, texts)))
    decreases |texts|
  {
    if texts == [] {
      assert Present(Pushed(kind, texts)) == [];
    } else {
      var n := |texts| - 1;
      CppFlushManyAdvances(files, max, texts[..n], kind);
      CppFlushAdvances(CppFlushMany(files, max, texts[..n]), max, texts[n]);
      PushedOneMore(kind, texts);
      AdvanceAllOneMore(Column(files, kind, max + 1), 0, Present(Pushed(kind, texts[..n])),
                        Some(Pushed(kind, [texts[n]])[0]));
    }
  }

  /** From any disk at all, half-present slots included: after k flushes the first min(k, max + 1) slots
      hold the last k texts, each with its hash. */
  lemma CppStabilises(files: Files, max: nat, texts: seq<Bytes>, k: nat)
    requires k <= max && k < |texts|
    ensures SelfHealing.PairOf(CppFlushMany(files, max, texts), k, texts[|texts| - 1 - k])
  {
    LatestPushed(files, max, texts, k, Json);
    LatestPushed(files, max, texts, k, Hash);
  }

  lemma LatestPushed(files: Files, max: nat, texts: seq<Bytes>, k: nat, kind: Kind)
    requires k <= max && k < |texts|
    ensures Look(CppFlushMany(files, max, texts), File(k, kind)) == Some(Pushed(kind, texts)[|texts| - 1 - k])
  {
    var after := Column(CppFlushMany(files, max, texts), kind, max + 1);
    CppFlushManyAdvances(files, max, texts, kind);
    LatestPushesStand(Column(files, kind, max + 1), Pushed(kind, texts), after);
    assert after[k] == Look(CppFlushMany(files, max, texts), File(k, kind));
  }

  /** Below the last slot, a file or a missing file moves up one slot per flush. */
  lemma MovesUp(files: Files, max: nat, texts: seq<Bytes>, kind: Kind, i: nat)
    requires i + |texts| < max
    ensures Look(CppFlushMany(files, max, texts), File(i + |texts|, kind)) == Look(files, File(i, kind))
  {
    CppFlushManyAdvances(files, max, texts, kind);
    OldFileMovesUp(files, CppFlushMany(files, max, texts), max, Pushed(kind, texts), kind, i);
  }

  lemma OldFileMovesUp(files: Files, after: Files, max: nat, pushed: seq<Bytes>, kind: Kind, i: nat)
    requires Column(after, kind, max + 1) == AdvanceAll(Column(files, kind, max + 1), 0, Present(pushed))
    requires i + |pushed| < max
    ensures Look(after, File(i + |pushed|, kind)) == Look(files, File(i, kind))
  {
    OldEntriesMoveUp(Column(files, kind, max + 1), pushed, Column(after, kind, max + 1), i);
    assert Column(after, kind, max + 1)[i + |pushed|] == Look(after, File(i + |pushed|, kind));
  }

  /** The last slot has the first file, from slot i on, that was not pushed out. */
  lemma LastSlotHas(files: Files, max: nat, texts: seq<Bytes>, kind: Kind, i: nat, j: nat)
    requires i <= j <= max && i + |texts| == max && File(j, kind) in files
    requires forall k: nat :: i <= k < j ==> File(k, kind) !in files
    ensures Look(CppFlushMany(files, max, texts), File(max, kind)) == Look(files, File(j, kind))
  {
    CppFlushManyAdvances(files, max, texts, kind);
    LastFileIsNewest(files, CppFlushMany(files, max, texts), max, Pushed(kind, texts), kind, i);
    FirstPresentFile(files, max, kind, i, j);
  }

  lemma LastFileIsNewest(files: Files, after: Files, max: nat, pushed: seq<Bytes>, kind: Kind, i: nat)
    requires Column(after, kind, max + 1) == AdvanceAll(Column(files, kind, max + 1), 0, Present(pushed))
    requires i + |pushed| == max
    ensures Look(after, File(max, kind)) == Newest(Column(files, kind, max + 1)[i..])
  {
    LastSlotKeepsNewest(Column(files, kind, max + 1), pushed, Column(after, kind, max + 1), i);
    assert Column(after, kind, max + 1)[max] == Look(after, File(max, kind));
  }

  lemma FirstPresentFile(files: Files, max: nat, kind: Kind, i: nat, j: nat)
    requires i <= j <= max && File(j, kind) in files
    requires forall k: nat :: i <= k < j ==> File(k, kind) !in files
    ensures Newest(Column(files, kind, max + 1)[i..]) == Look(files, File(j, kind))
  {
    NewestIsFirstPresent(Column(files, kind, max + 1)[i..], j - i);
  }

  // ---------- A crash between the two renames of a slot

  /** The files after rounds n, n - 1, ..., k + 1 of a rotation. */
  function RoundsDown(files: Files, n: nat, k: nat): Files
    requires k <= n
    decreases n
  {
    if n == k then files else RoundsDown(Run(files, CppRound(files, n)), n - 1, k)
  }

  ghost predicate FamilyShiftedFrom(files: Files, after: Files, kind: Kind, n: nat, lo: nat) {
    && Column(after, kind, n + 1) == Shift(Column(files, kind, n + 1), lo)
    && forall f: File | f.slot > n :: Look(after, f) == Look(files, f)
  }

  lemma {:induction false} RoundsDownShift(files: Files, n: nat, k: nat, kind: Kind)
    requires k <= n
    ensures FamilyShiftedFrom(files, RoundsDown(files, n, k), kind, n, k)
    decreases n
  {
    if n == k {
      assert Shift(Column(files, kind, n + 1), n) == Column(files, kind, n + 1);
    } else {
      var next := Run(files, CppRound(files, n));
      RoundsDownShift(next, n - 1, k, kind);
      OneRoundMore(files, RoundsDown(next, n - 1, k), n, k, kind);
    }
  }

  lemma OneRoundMore(files: Files, after: Files, n: nat, k: nat, kind: Kind)
    requires k < n && FamilyShiftedFrom(Run(files, CppRound(files, n)), after, kind, n - 1, k)
    ensures FamilyShiftedFrom(files, after, kind, n, k)
  {
    var next := Run(files, CppRound(files, n));
    CppRoundEffect(files, n, kind);
    assert Look(after, File(n, kind)) == Look(next, File(n, kind));
    ShiftRestOfRow(files, next, after, n, k, kind);
  }

  /** The files if the rotation ends after the rename of slot i's hash file. */
  function TornAt(files: Files, max: nat, i: nat): Files
    requires i < max
  {
    var rounds := RoundsDown(files, max, i + 1);
    Run(rounds, MoveFile(rounds, Hash, i + 1))
  }

  /** A flush that is cut at some point leaves these files. */
  lemma {:induction false} TornAtIsPrefix(files: Files, n: nat, i: nat) returns (p: nat)
    requires i < n
    ensures p <= |CppRotateSteps(files, n)| && Run(files, CppRotateSteps(files, n)[..p]) == TornAt(files, n, i)
    decreases n
  {
    var round := CppRound(files, n);
    var next := Run(files, round);
    var rest := CppRotateSteps(next, n - 1);
    if n == i + 1 {
      p := |MoveFile(files, Hash, n)|;
      assert (round + rest)[..p] == MoveFile(files, Hash, n);
    } else {
      var q := TornAtIsPrefix(next, n - 1, i);
      p := |round| + q;
      assert (round + rest)[..p] == round + rest[..q];
      RunConcat(files, round, rest[..q]);
    }
  }

  lemma TornAtSlots(files: Files, max: nat, i: nat)
    requires i < max && File(i, Json) in files && File(i, Hash) in files
    ensures var torn := TornAt(files, max, i);
            && Look(torn, File(i, Json)) == Look(files, File(i, Json))
            && Look(torn, File(i, Hash)) == None
            && Look(torn, File(i + 1, Hash)) == Look(files, File(i, Hash))
            && (i + 1 < max ==> Look(torn, File(i + 1, Json)) == None)
  {
    var rounds := RoundsDown(files, max, i + 1);
    RoundsDownShift(files, max, i + 1, Json);
    RoundsDownShift(files, max, i + 1, Hash);
    assert Look(rounds, File(i, Json)) == Column(rounds, Json, max + 1)[i] == Look(files, File(i, Json));
    assert Look(rounds, File(i, Hash)) == Column(rounds, Hash, max + 1)[i] == Look(files, File(i, Hash));
    assert Look(rounds, File(i + 1, Json)) == Column(rounds, Json, max + 1)[i + 1];
    RunOne(rounds, Rename(File(i, Hash), File(i + 1, Hash)));
  }

  /** A snapshot torn at slot i stays torn while it moves up, and neither of its slots opens; but when
      its json file gets to the last slot its hash file is still there, and it is whole again. */
  lemma TornSnapshotHeals(text: TextCodec, files: Files, max: nat, i: nat, texts: seq<Bytes>)
    requires i < max && File(i, Json) in files && File(i, Hash) in files
    ensures var after, n := CppFlushMany(TornAt(files, max, i), max, texts), i + |texts|;
            && (n + 1 < max ==>
                  && Look(after, File(n, Json)) == Look(files, File(i, Json))
                  && Look(after, File(n + 1, Hash)) == Look(files, File(i, Hash))
                  && OpenJson(text, after, n, Required) == Err(KvsHashFileReadError)
                  && OpenJson(text, after, n + 1, Required) == Err(KvsFileReadError))
            && (n == max ==>
                  && Look(after, File(max, Json)) == Look(files, File(i, Json))
                  && Look(after, File(max, Hash)) == Look(files, File(i, Hash))
                  && OpenJson(text, after, max, Required) == OpenJson(text, files, i, Required))
  {
    var torn, n := TornAt(files, max, i), i + |texts|;
    TornAtSlots(files, max, i);
    if n + 1 < max {
      MovesUp(torn, max, texts, Json, i);
      MovesUp(torn, max, texts, Hash, i);
      MovesUp(torn, max, texts, Json, i + 1);
      MovesUp(torn, max, texts, Hash, i + 1);
    } else if n == max {
      LastSlotHas(torn, max, texts, Json, i, i);
      LastSlotHas(torn, max, texts, Hash, i, i + 1);
    }
  }
}
