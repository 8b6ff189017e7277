/** Repeated flushes: how holes in the row of snapshots grow out, and where repeated failing
    rotations end. */
module SelfHealing {
  import opened Values
  import opened Storage
  import opened Timeline
  import opened Adler32
  import opened JsonCodec
  import opened Rotation
  import opened RustBackend
  import opened History

  // ---------- Flushes that succeed

  /** The files after the first n of these flushes. */
  function FlushFirst(text: TextCodec, files: Files, max: nat, maps: seq<KvsMap>, orders: seq<nat>, n: nat): Files
    requires n <= |maps| == |orders|
  {
    if n == 0 then files
    else Flushed(text, FlushFirst(text, files, max, maps, orders, n - 1), max, maps[n - 1], orders[n - 1])
  }

  function FlushMany(text: TextCodec, files: Files, max: nat, maps: seq<KvsMap>, orders: seq<nat>): Files
    requires |orders| == |maps|
  {
    FlushFirst(text, files, max, maps, orders, |maps|)
  }

  lemma {:induction false} LaterFlushesDoNotMatter(text: TextCodec, files: Files, max: nat, maps: seq<KvsMap>,
                                                   orders: seq<nat>, i: nat, n: nat)
    requires n <= i <= |maps| == |orders|
    ensures FlushFirst(text, files, max, maps[..i], orders[..i], n) == FlushFirst(text, files, max, maps, orders, n)
  {
    if n > 0 {
      LaterFlushesDoNotMatter(text, files, max, maps, orders, i, n - 1);
    }
  }

  lemma FlushManyOneMore(text: TextCodec, files: Files, max: nat, maps: seq<KvsMap>, orders: seq<nat>)
    requires |orders| == |maps| > 0
    ensures var n := |maps| - 1;
            FlushMany(text, files, max, maps, orders)
            == Flushed(text, FlushMany(text, files, max, maps[..n], orders[..n]), max, maps[n], orders[n])
  {
    LaterFlushesDoNotMatter(text, files, max, maps, orders, |maps| - 1, |maps| - 1);
  }

  method FlushOnce(backend: JsonBackend, m: KvsMap, order: nat) returns (r: Result<()>)
    requires backend.disk.budget == None
    modifies backend.disk
    ensures var files, max := old(backend.disk.files), backend.snapshotMaxCount;
            && backend.disk.files == Flushed(backend.text, files, max, m, order) && backend.disk.budget == None
            && r == FlushOutcome(backend.text, files, max, m, order)
  {
    ghost var steps := FlushSteps(backend.text, backend.disk.files, backend.snapshotMaxCount, m, order);
    r := backend.Flush(m, order);
    assert steps[..|steps|] == steps;
  }

  /** What flush i of these answers. */
  function AnswerOf(text: TextCodec, files: Files, max: nat, maps: seq<KvsMap>, orders: seq<nat>, i: nat): Result<()>
    requires |orders| == |maps| && i < |maps|
  {
    FlushOutcome(text, FlushFirst(text, files, max, maps, orders, i), max, maps[i], orders[i])
  }

  /** The flushes carried out by the backend, each on what the one before left; `last` is what the last of
      them answers. */
  method FlushAll(backend: JsonBackend, maps: seq<KvsMap>, orders: seq<nat>) returns (last: Result<()>)
    requires |orders| == |maps| && backend.disk.budget == None
    modifies backend.disk
    ensures var files := old(backend.disk.files);
            && backend.disk.files == FlushMany(backend.text, files, backend.snapshotMaxCount, maps, orders)
            && (maps != [] ==>
                  last == AnswerOf(backend.text, files, backend.snapshotMaxCount, maps, orders, |maps| - 1))
  {
    ghost var files0, text, max := backend.disk.files, backend.text, backend.snapshotMaxCount;
    last := Ok(());
    for i := 0 to |maps|
      invariant backend.disk.budget == None
      invariant backend.disk.files == FlushFirst(text, files0, max, maps, orders, i)
      invariant i > 0 ==> last == AnswerOf(text, files0, max, maps, orders, i - 1)
    {
      last := FlushOnce(backend, maps[i], orders[i]);
    }
  }

  function Texts(text: TextCodec, maps: seq<KvsMap>, orders: seq<nat>): (r: seq<Option<Bytes>>)
    requires |orders| == |maps|
    ensures |r| == |maps|
  {
    seq(|maps|, i requires 0 <= i < |maps| => TextOf(text, maps[i], orders[i]))
  }

  function Hashes(texts: seq<Option<Bytes>>): (r: seq<Option<Bytes>>)
    ensures |r| == |texts|
  {
    seq(|texts|, i requires 0 <= i < |texts| => HashOf(texts[i]))
  }

  /** A flush that succeeds leaves no half-present slot below the last one. */
  lemma FlushStaysRotatable(text: TextCodec, files: Files, max: nat, m: KvsMap, order: nat)
    requires max > 0 && RotateOk(files, max - 1)
    ensures RotateOk(Flushed(text, files, max, m, order), max - 1)
  {
    FlushAdvances(text, files, max, m, order);
    AdvanceStaysRotatable(files, Flushed(text, files, max, m, order), max, TextOf(text, m, order));
  }

  lemma AdvanceStaysRotatable(files: Files, after: Files, max: nat, t: Option<Bytes>)
    requires max > 0 && RotateOk(files, max - 1) && Advanced(files, after, max, t)
    ensures RotateOk(after, max - 1)
  {
    forall k | 0 <= k < max - 1 ensures !Half(after, k) {
      NotHalfAfterAdvance(files, after, max, t, k);
    }
    BlockedIs(after, max - 1, 0);
  }

  lemma NotHalfAfterAdvance(files: Files, after: Files, max: nat, t: Option<Bytes>, k: nat)
    requires k + 1 < max && RotateOk(files, max - 1) && Advanced(files, after, max, t)
    ensures !Half(after, k)
  {
    AdvancedFile(Column(files, Json, max), Column(after, Json, max), t, k);
    AdvancedFile(Column(files, Hash, max), Column(after, Hash, max), HashOf(t), k);
    BlockedByHighestHalf(files, max - 1);
    assert k > 0 ==> !Half(files, k - 1);
    PushedSlotHalf(files, after, t, k);
  }

  lemma PushedSlotHalf(files: Files, after: Files, t: Option<Bytes>, k: nat)
    requires k > 0 ==> !Half(files, k - 1)
    requires Look(after, File(k, Json)) == if k == 0 then t else Look(files, File(k - 1, Json))
    requires Look(after, File(k, Hash)) == if k == 0 then HashOf(t) else Look(files, File(k - 1, Hash))
    ensures !Half(after, k)
  {
  }

  lemma AdvancedFile(s: seq<Option<Bytes>>, r: seq<Option<Bytes>>, entry: Option<Bytes>, k: nat)
    requires k + 1 < |s| && r == Advance(s, 0, entry)
    ensures r[k] == if k == 0 then entry else s[k - 1]
  {
  }

  /** Both families have advanced from the same slot, the hash family by the hashes. */
  ghost predicate AdvancedBy(files: Files, after: Files, max: nat, texts: seq<Option<Bytes>>) {
    && Column(after, Json, max) == AdvanceAll(Column(files, Json, max), 0, texts)
    && Column(after, Hash, max) == AdvanceAll(Column(files, Hash, max), 0, Hashes(texts))
  }

  lemma AdvancedByOneMore(files: Files, before: Files, after: Files, max: nat, texts: seq<Option<Bytes>>,
                          t: Option<Bytes>)
    requires AdvancedBy(files, before, max, texts) && Advanced(before, after, max, t)
    ensures AdvancedBy(files, after, max, texts + [t])
  {
    AdvanceAllOneMore(Column(files, Json, max), 0, texts, t);
    AdvanceAllOneMore(Column(files, Hash, max), 0, Hashes(texts), HashOf(t));
    assert Hashes(texts + [t]) == Hashes(texts) + [HashOf(t)];
  }

  lemma TextsOneMore(text: TextCodec, maps: seq<KvsMap>, orders: seq<nat>)
    requires |orders| == |maps| > 0
    ensures var n := |maps| - 1;
            Texts(text, maps, orders) == Texts(text, maps[..n], orders[..n]) + [TextOf(text, maps[n], orders[n])]
  {
  }

  /** From any disk without half-present slots below the last one, holes allowed, any number of
      flushes advances both families by the printed texts. */
  lemma {:induction false} FlushManyAdvances(text: TextCodec, files: Files, max: nat, maps: seq<KvsMap>,
                                             orders: seq<nat>)
    requires max > 0 && RotateOk(files, max - 1) && |orders| == |maps|
    ensures var after := FlushMany(text, files, max, maps, orders);
            RotateOk(after, max - 1) && AdvancedBy(files, after, max, Texts(text, maps, orders))
    decreases |maps|
  {
    if maps != [] {
      var n := |maps| - 1;
      var before := FlushMany(text, files, max, maps[..n], orders[..n]);
      FlushManyOneMore(text, files, max, maps, orders);
      FlushManyAdvances(text, files, max, maps[..n], orders[..n]);
      FlushStaysRotatable(text, before, max, maps[n], orders[n]);
      FlushAdvances(text, before, max, maps[n], orders[n]);
      TextsOneMore(text, maps, orders);
      AdvancedByOneMore(files, before, FlushMany(text, files, max, maps, orders), max,
                        Texts(text, maps[..n], orders[..n]), TextOf(text, maps[n], orders[n]));
    }
  }

  /** Each of these flushes rotates and answers Ok, or JsonGeneratorError if its map cannot be printed. */
  lemma FlushManyAnswers(text: TextCodec, files: Files, max: nat, maps: seq<KvsMap>, orders: seq<nat>, i: nat)
    requires max > 0 && RotateOk(files, max - 1) && |orders| == |maps| && i < |maps|
    ensures AnswerOf(text, files, max, maps, orders, i)
            == if TextOf(text, maps[i], orders[i]).Some? then Ok(()) else Err(JsonGeneratorError)
  {
    LaterFlushesDoNotMatter(text, files, max, maps, orders, i, i);
    FlushManyAdvances(text, files, max, maps[..i], orders[..i]);
  }

  predicate Prints(text: TextCodec, m: KvsMap, order: nat) {
    TextOf(text, m, order).Some? && TextStandsFor(text, TextOf(text, m, order).value, m)
  }

  ghost predicate AllPrint(text: TextCodec, maps: seq<KvsMap>, orders: seq<nat>)
    requires |orders| == |maps|
  {
    forall i | 0 <= i < |maps| :: Prints(text, maps[i], orders[i])
  }

  lemma FiniteMapsPrint(text: TextCodec, maps: seq<KvsMap>, orders: seq<nat>)
    requires text.RoundTrips() && text.PrintsFinite() && |orders| == |maps|
    requires forall m | m in maps :: FiniteValue(Object(m))
    ensures AllPrint(text, maps, orders)
  {
    forall i | 0 <= i < |maps| ensures Prints(text, maps[i], orders[i]) {
      assert maps[i] in maps;
      PrintedTextStands(text, maps[i], orders[i]);
    }
  }

  lemma PrintableTexts(text: TextCodec, maps: seq<KvsMap>, orders: seq<nat>) returns (texts: seq<Bytes>)
    requires |orders| == |maps| && AllPrint(text, maps, orders)
    ensures |texts| == |maps| && Texts(text, maps, orders) == Present(texts)
    ensures Hashes(Texts(text, maps, orders)) == Present(HashesOf(texts))
    ensures forall i :: 0 <= i < |maps| ==> TextStandsFor(text, texts[i], maps[i])
  {
    assert forall i | 0 <= i < |maps| :: Prints(text, maps[i], orders[i]);
    texts := seq(|maps|, i requires 0 <= i < |maps| => TextOf(text, maps[i], orders[i]).value);
  }

  function HashesOf(texts: seq<Bytes>): (r: seq<Bytes>)
    ensures |r| == |texts| && forall i :: 0 <= i < |texts| ==> r[i] == HashBytes(Checksum(texts[i]))
  {
    seq(|texts|, i requires 0 <= i < |texts| => HashBytes(Checksum(texts[i])))
  }

  lemma AdvancedByTexts(files: Files, after: Files, max: nat, entries: seq<Option<Bytes>>, texts: seq<Bytes>)
    requires entries == Present(texts) && Hashes(entries) == Present(HashesOf(texts))
    requires AdvancedBy(files, after, max, entries)
    ensures Column(after, Json, max) == AdvanceAll(Column(files, Json, max), 0, Present(texts))
    ensures Column(after, Hash, max) == AdvanceAll(Column(files, Hash, max), 0, Present(HashesOf(texts)))
  {
  }

  /** The slot holds this text and its hash. */
  predicate PairOf(files: Files, slot: nat, t: Bytes) {
    Look(files, File(slot, Json)) == Some(t) && Look(files, File(slot, Hash)) == Some(HashBytes(Checksum(t)))
  }

  lemma LatestTextsStand(files: Files, after: Files, max: nat, entries: seq<Option<Bytes>>, texts: seq<Bytes>, k: nat)
    requires entries == Present(texts) && Hashes(entries) == Present(HashesOf(texts))
    requires AdvancedBy(files, after, max, entries) && k < max && k < |texts|
    ensures PairOf(after, k, texts[|texts| - 1 - k])
  {
    AdvancedByTexts(files, after, max, entries, texts);
    LatestPushesStand(Column(files, Json, max), texts, Column(after, Json, max));
    LatestPushesStand(Column(files, Hash, max), HashesOf(texts), Column(after, Hash, max));
    assert Column(after, Json, max)[k] == Some(texts[|texts| - 1 - k]);
    assert Column(after, Hash, max)[k] == Some(HashesOf(texts)[|texts| - 1 - k]);
  }

  /** After k successful flushes the first min(k, max) slots hold the last k flushed maps, whatever
      the disk held before. */
  lemma Stabilises(text: TextCodec, files: Files, max: nat, maps: seq<KvsMap>, orders: seq<nat>, k: nat)
    requires text.RoundTrips() && text.PrintsFinite() && |orders| == |maps|
    requires max > 0 && RotateOk(files, max - 1) && k < max && k < |maps|
    requires forall m | m in maps :: FiniteValue(Object(m))
    ensures SlotHolds(text, FlushMany(text, files, max, maps, orders), k, Some(maps[|maps| - 1 - k]))
  {
    FiniteMapsPrint(text, maps, orders);
    StabilisesWhenPrinted(text, files, max, maps, orders, k);
  }

  lemma StabilisesWhenPrinted(text: TextCodec, files: Files, max: nat, maps: seq<KvsMap>, orders: seq<nat>, k: nat)
    requires |orders| == |maps| && AllPrint(text, maps, orders)
    requires max > 0 && RotateOk(files, max - 1) && k < max && k < |maps|
    ensures SlotHolds(text, FlushMany(text, files, max, maps, orders), k, Some(maps[|maps| - 1 - k]))
  {
    FlushManyAdvances(text, files, max, maps, orders);
    LatestMapsStand(text, files, FlushMany(text, files, max, maps, orders), max, maps, orders, k);
  }

  lemma LatestMapsStand(text: TextCodec, files: Files, after: Files, max: nat, maps: seq<KvsMap>,
                        orders: seq<nat>, k: nat)
    requires |orders| == |maps| && AllPrint(text, maps, orders)
    requires k < max && k < |maps| && AdvancedBy(files, after, max, Texts(text, maps, orders))
    ensures SlotHolds(text, after, k, Some(maps[|maps| - 1 - k]))
  {
    var texts := PrintableTexts(text, maps, orders);
    LatestTextHolds(text, files, after, max, Texts(text, maps, orders), texts, k, maps[|maps| - 1 - k]);
  }

  lemma LatestTextHolds(text: TextCodec, files: Files, after: Files, max: nat, entries: seq<Option<Bytes>>,
                        texts: seq<Bytes>, k: nat, m: KvsMap)
    requires entries == Present(texts) && Hashes(entries) == Present(HashesOf(texts))
    requires AdvancedBy(files, after, max, entries) && k < max && k < |texts|
    requires TextStandsFor(text, texts[|texts| - 1 - k], m)
    ensures SlotHolds(text, after, k, Some(m))
  {
    LatestTextsStand(files, after, max, entries, texts, k);
    PairHolds(text, after, k, texts[|texts| - 1 - k], m);
  }

  lemma PairHolds(text: TextCodec, files: Files, k: nat, t: Bytes, m: KvsMap)
    requires PairOf(files, k, t) && TextStandsFor(text, t, m)
    ensures SlotHolds(text, files, k, Some(m))
  {
  }

  lemma HoleOfTextsMoves(files: Files, after: Files, max: nat, hole: nat,
                         entries: seq<Option<Bytes>>, texts: seq<Bytes>, k: nat)
    requires entries == Present(texts) && Hashes(entries) == Present(HashesOf(texts))
    requires AdvancedBy(files, after, max, entries) && hole + 1 < max && k < max
    requires forall f: File | f.slot < max :: f in files <==> f.slot != hole
    ensures var gone := k == hole + |texts| && k + 1 < max;
            (File(k, Json) !in after <==> gone) && (File(k, Hash) !in after <==> gone)
  {
    AdvancedByTexts(files, after, max, entries, texts);
    HoleMovesUp(Column(files, Json, max), hole, texts, Column(after, Json, max));
    HoleMovesUp(Column(files, Hash, max), hole, HashesOf(texts), Column(after, Hash, max));
    assert Column(after, Json, max)[k] == Look(after, File(k, Json));
    assert Column(after, Hash, max)[k] == Look(after, File(k, Hash));
  }

  /** A single hole in an otherwise full row moves up one slot per flush and is gone once it would
      reach the last slot. */
  lemma HoleGrowsOut(text: TextCodec, files: Files, max: nat, hole: nat, maps: seq<KvsMap>, orders: seq<nat>, k: nat)
    requires text.RoundTrips() && text.PrintsFinite() && |orders| == |maps|
    requires hole + 1 < max && RotateOk(files, max - 1) && k < max
    requires forall f: File | f.slot < max :: f in files <==> f.slot != hole
    requires forall m | m in maps :: FiniteValue(Object(m))
    ensures var after := FlushMany(text, files, max, maps, orders);
            var gone := k == hole + |maps| && k + 1 < max;
            (File(k, Json) !in after <==> gone) && (File(k, Hash) !in after <==> gone)
  {
    FiniteMapsPrint(text, maps, orders);
    HoleOfMapsMoves(text, files, max, hole, maps, orders, k);
  }

  lemma HoleOfMapsMoves(text: TextCodec, files: Files, max: nat, hole: nat, maps: seq<KvsMap>, orders: seq<nat>, k: nat)
    requires |orders| == |maps| && AllPrint(text, maps, orders)
    requires hole + 1 < max && RotateOk(files, max - 1) && k < max
    requires forall f: File | f.slot < max :: f in files <==> f.slot != hole
    ensures var after := FlushMany(text, files, max, maps, orders);
            var gone := k == hole + |maps| && k + 1 < max;
            (File(k, Json) !in after <==> gone) && (File(k, Hash) !in after <==> gone)
  {
    FlushManyAdvances(text, files, max, maps, orders);
    var texts := PrintableTexts(text, maps, orders);
    HoleOfTextsMoves(files, FlushMany(text, files, max, maps, orders), max, hole, Texts(text, maps, orders), texts, k);
  }

  // ---------- Flushes that fail

  /** A flush that meets a half-present slot makes the renames above it, saves nothing, and fails. */
  lemma BlockedFlush(text: TextCodec, files: Files, max: nat, m: KvsMap, order: nat)
    requires max > 0 && !RotateOk(files, max - 1)
    ensures Flushed(text, files, max, m, order) == Rotated(files, max - 1)
    ensures FlushOutcome(text, files, max, m, order) == Err(IntegrityCorrupted)
  {
    assert RotateSteps(files, max - 1) + [] == RotateSteps(files, max - 1);
  }

  function RotateMany(files: Files, n: nat, times: nat): Files {
    if times == 0 then files else Rotated(RotateMany(files, n, times - 1), n)
  }

  /** Both families have moved up the same number of times from the same slot; files above the window
      are as they were. */
  ghost predicate MovedUp(files: Files, after: Files, n: nat, lo: nat, times: nat) {
    && Column(after, Json, n + 1) == AdvanceAll(Column(files, Json, n + 1), lo, Absent(times))
    && Column(after, Hash, n + 1) == AdvanceAll(Column(files, Hash, n + 1), lo, Absent(times))
    && forall f: File | f.slot > n :: Look(after, f) == Look(files, f)
  }

  lemma MovedUpOnceMore(files: Files, before: Files, after: Files, n: nat, lo: nat, times: nat)
    requires MovedUp(files, before, n, lo, times) && Shifted(before, after, n, lo, lo)
    ensures MovedUp(files, after, n, lo, times + 1)
  {
    AdvanceAllOneMore(Column(files, Json, n + 1), lo, Absent(times), None);
    AdvanceAllOneMore(Column(files, Hash, n + 1), lo, Absent(times), None);
    assert Absent<Bytes>(times + 1) == Absent(times) + [None];
  }

  lemma RotateOnceMore(files: Files, before: Files, n: nat, lo: nat, times: nat)
    requires Blocked(before, n) == lo && MovedUp(files, before, n, lo, times)
    ensures Blocked(Rotated(before, n), n) == lo && MovedUp(files, Rotated(before, n), n, lo, times + 1)
  {
    var after := Rotated(before, n);
    RotationShifts(before, n);
    StillBlocked(before, after, n, lo);
    MovedUpOnceMore(files, before, after, n, lo, times);
  }

  lemma {:induction false} RotateManyAdvances(files: Files, n: nat, times: nat)
    ensures MovedUp(files, RotateMany(files, n, times), n, Blocked(files, n), times)
    ensures Blocked(RotateMany(files, n, times), n) == Blocked(files, n)
    decreases times
  {
    if times > 0 {
      RotateManyAdvances(files, n, times - 1);
      RotateOnceMore(files, RotateMany(files, n, times - 1), n, Blocked(files, n), times - 1);
    }
  }

  lemma StillBlocked(files: Files, after: Files, n: nat, lo: nat)
    requires lo == Blocked(files, n) && Shifted(files, after, n, lo, lo)
    ensures Blocked(after, n) == lo
  {
    BlockedByHighestHalf(files, n);
    forall k | 0 <= k < n && k + 1 >= lo
      ensures Half(after, k) <==> k < lo && Half(files, k)
    {
      ShiftedSlot(files, after, n, lo, lo, k);
      MovedSlotHalf(files, after, n, lo, k);
    }
    BlockedIs(after, n, lo);
  }

  lemma MovedSlotHalf(files: Files, after: Files, n: nat, lo: nat, k: nat)
    requires k < n && lo <= n && (k > lo ==> !Half(files, k - 1))
    requires Look(after, File(k, Json)) == MovedFile(files, Json, n + 1, lo, k)
    requires Look(after, File(k, Hash)) == MovedFile(files, Hash, n + 1, lo, k)
    ensures Half(after, k) <==> k < lo && Half(files, k)
  {
  }

  lemma {:induction false} BlockedIs(files: Files, n: nat, lo: nat)
    requires lo <= n && (forall k :: lo <= k < n ==> !Half(files, k)) && (lo > 0 ==> Half(files, lo - 1))
    ensures Blocked(files, n) == lo
    decreases n
  {
    if n > lo {
      BlockedIs(files, n - 1, lo);
    }
  }

  lemma StaysBlocked(files: Files, n: nat, times: nat)
    requires !RotateOk(files, n)
    ensures !RotateOk(RotateMany(files, n, times), n)
  {
    RotateManyAdvances(files, n, times);
  }

  /** Repeated flushes on a disk with a half-present slot below the last one do nothing but rotate. */
  lemma {:induction false} FailingFlushesRotate(text: TextCodec, files: Files, max: nat, maps: seq<KvsMap>,
                                                orders: seq<nat>)
    requires max > 0 && !RotateOk(files, max - 1) && |orders| == |maps|
    ensures FlushMany(text, files, max, maps, orders) == RotateMany(files, max - 1, |maps|)
    decreases |maps|
  {
    if maps != [] {
      var n := |maps| - 1;
      FlushManyOneMore(text, files, max, maps, orders);
      FailingFlushesRotate(text, files, max, maps[..n], orders[..n]);
      StaysBlocked(files, max - 1, n);
      BlockedFlush(text, RotateMany(files, max - 1, n), max, maps[n], orders[n]);
    }
  }

  /** And every one of them fails. */
  lemma FailingFlushesAnswer(text: TextCodec, files: Files, max: nat, maps: seq<KvsMap>, orders: seq<nat>, i: nat)
    requires max > 0 && !RotateOk(files, max - 1) && |orders| == |maps| && i < |maps|
    ensures AnswerOf(text, files, max, maps, orders, i) == Err(IntegrityCorrupted)
  {
    LaterFlushesDoNotMatter(text, files, max, maps, orders, i, i);
    FailingFlushesRotate(text, files, max, maps[..i], orders[..i]);
    StaysBlocked(files, max - 1, i);
  }

  /** The slots below the blocking one are as they were, the slots between are empty, and the last one
      has the newest file that lay there. */
  ghost predicate Settled(files: Files, after: Files, max: nat, lo: nat, kind: Kind)
    requires lo < max
  {
    var column := Column(files, kind, max);
    Column(after, kind, max) == column[..lo] + Absent(max - 1 - lo) + [Newest(column[lo..])]
  }

  lemma FamilySettles(files: Files, after: Files, max: nat, lo: nat, times: nat, kind: Kind)
    requires lo < max && times >= max - 1 - lo
    requires Column(after, kind, max) == AdvanceAll(Column(files, kind, max), lo, Absent(times))
    ensures Settled(files, after, max, lo, kind)
  {
    SettlesWhenNothingIsAdded(Column(files, kind, max), lo, times);
  }

  lemma RotationsSettle(files: Files, max: nat, times: nat)
    requires max > 0 && !RotateOk(files, max - 1) && times >= max - 1 - Blocked(files, max - 1)
    ensures var after := RotateMany(files, max - 1, times);
            var lo := Blocked(files, max - 1);
            && Settled(files, after, max, lo, Json) && Settled(files, after, max, lo, Hash)
            && (forall f: File | f.slot >= max :: Look(after, f) == Look(files, f))
  {
    var lo := Blocked(files, max - 1);
    RotateManyAdvances(files, max - 1, times);
    FamilySettles(files, RotateMany(files, max - 1, times), max, lo, times, Json);
    FamilySettles(files, RotateMany(files, max - 1, times), max, lo, times, Hash);
  }

  lemma SameFiles(a: Files, b: Files, max: nat)
    requires Column(a, Json, max) == Column(b, Json, max) && Column(a, Hash, max) == Column(b, Hash, max)
    requires forall f: File | f.slot >= max :: Look(a, f) == Look(b, f)
    ensures a == b
  {
    forall f: File ensures Look(a, f) == Look(b, f) {
      if f.slot < max {
        assert Column(a, f.kind, max)[f.slot] == Look(a, File(f.slot, f.kind));
        assert Column(b, f.kind, max)[f.slot] == Look(b, File(f.slot, f.kind));
        assert f.kind.Json? || f.kind.Hash?;
      }
    }
    SameLooks(a, b);
  }

  lemma SameLooks(a: Files, b: Files)
    requires forall f: File :: Look(a, f) == Look(b, f)
    ensures a == b
  {
    assert forall f: File :: f in a <==> Look(a, f).Some?;
    assert forall f: File :: f in b <==> Look(b, f).Some?;
    assert forall f | f in a :: a[f] == Look(a, f).value;
  }

  /** Repeating flushes that fail at slot j = `lo - 1` ends after max - 2 - j attempts: slots up to j are
      as they were, the slots between are empty, the last slot holds the newest files that lay above j,
      and from then on a flush changes no file at all. */
  lemma FailuresSettle(text: TextCodec, files: Files, max: nat, maps: seq<KvsMap>, orders: seq<nat>,
                       m: KvsMap, order: nat)
    requires max > 0 && !RotateOk(files, max - 1) && |orders| == |maps| >= max - 1 - Blocked(files, max - 1)
    ensures var after := FlushMany(text, files, max, maps, orders);
            var lo := Blocked(files, max - 1);
            && Settled(files, after, max, lo, Json) && Settled(files, after, max, lo, Hash)
            && (forall f: File | f.slot >= max :: Look(after, f) == Look(files, f))
            && Flushed(text, after, max, m, order) == after
            && FlushOutcome(text, after, max, m, order) == Err(IntegrityCorrupted)
  {
    var times := |maps|;
    var after, next := RotateMany(files, max - 1, times), RotateMany(files, max - 1, times + 1);
    FailingFlushesRotate(text, files, max, maps, orders);
    StaysBlocked(files, max - 1, times);
    BlockedFlush(text, after, max, m, order);
    RotationsSettle(files, max, times);
    RotationsSettle(files, max, times + 1);
    SameFiles(next, after, max);
  }

  /** The snapshot that ends in the last slot is a whole one: the newest that lay above the
      half-present slot, both files from the same place. */
  lemma FailuresKeepNewest(text: TextCodec, files: Files, max: nat, maps: seq<KvsMap>, orders: seq<nat>, i: nat)
    requires max > 0 && !RotateOk(files, max - 1) && |orders| == |maps| >= max - 1 - Blocked(files, max - 1)
    requires Blocked(files, max - 1) <= i < max - 1 && File(i, Json) in files && File(i, Hash) in files
    requires forall k :: Blocked(files, max - 1) <= k < i ==> File(k, Json) !in files && File(k, Hash) !in files
    ensures var after := FlushMany(text, files, max, maps, orders);
            && Look(after, File(max - 1, Json)) == Look(files, File(i, Json))
            && Look(after, File(max - 1, Hash)) == Look(files, File(i, Hash))
  {
    var lo, after := Blocked(files, max - 1), FlushMany(text, files, max, maps, orders);
    FailingFlushesRotate(text, files, max, maps, orders);
    RotationsSettle(files, max, |maps|);
    NewestFileSettles(files, after, max, lo, Json, i);
    NewestFileSettles(files, after, max, lo, Hash, i);
  }

  lemma NewestFileSettles(files: Files, after: Files, max: nat, lo: nat, kind: Kind, i: nat)
    requires lo <= i < max && Settled(files, after, max, lo, kind) && File(i, kind) in files
    requires forall k :: lo <= k < i ==> File(k, kind) !in files
    ensures Look(after, File(max - 1, kind)) == Look(files, File(i, kind))
  {
    NewestIsFirstPresent(Column(files, kind, max)[lo..], i - lo);
    assert Look(after, File(max - 1, kind)) == Column(after, kind, max)[max - 1];
  }
}
