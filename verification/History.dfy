/** The store seen from outside: a map in memory and a row of flushed maps. What the snapshot
    files must look like to stand for such a row, and what each file operation does to it. */
module History {
  import opened Values
  import opened Storage
  import opened Timeline
  import opened Adler32
  import opened JsonCodec
  import opened Rotation
  import opened RustBackend

  // ---------- The abstract store

  datatype Store = Store(memory: KvsMap, window: seq<Option<KvsMap>>)

  datatype Command =
    | Set(key: string, value: KvsValue)
    | Remove(key: string)
    | Reset
    | ResetKey(key: string)
    | Get(key: string)
    | Flush(order: nat)
    | Count
    | Restore(id: nat)

  datatype Reply = Success | Found(value: KvsValue) | Counted(count: nat) | Refused(error: ErrorCode)

  /** What a flush adds to the row: the map, or nothing if the map holds a number that JSON text
      cannot show. */
  function Entry(m: KvsMap): Option<KvsMap> {
    if FiniteValue(Object(m)) then Some(m) else None
  }

  /** One operation on the abstract store. Restoring and flushing know nothing of files: a flush
      puts the memory in front of the row, a restore takes an earlier map out of it. */
  function Perform(s: Store, defaults: KvsMap, c: Command): (Store, Reply) {
    match c
    case Set(key, value) => (s.(memory := s.memory[key := value]), Success)
    case Remove(key) =>
      if key in s.memory then (s.(memory := s.memory - {key}), Success) else (s, Refused(KeyNotFound))
    case Reset => (s.(memory := map[]), Success)
    case ResetKey(key) =>
      if key in defaults then (s.(memory := s.memory - {key}), Success) else (s, Refused(KeyDefaultNotFound))
    case Get(key) =>
      if key in s.memory then (s, Found(s.memory[key]))
      else if key in defaults then (s, Found(defaults[key]))
      else (s, Refused(KeyNotFound))
    case Flush(_) =>
      if s.window == [] then (s, Success)
      else (s.(window := Advance(s.window, 0, Entry(s.memory))),
            if Entry(s.memory).Some? then Success else Refused(JsonGeneratorError))
    case Count => (s, Counted(Leading(s.window)))
    case Restore(id) =>
      if id == 0 || id > Leading(s.window) then (s, Refused(InvalidSnapshotId))
      else if id == Leading(s.window) then (s, Refused(FileNotFound))
      else (s.(memory := RoundedMap(s.window[id].value)), Success)
  }

  function PerformAll(s: Store, defaults: KvsMap, cs: seq<Command>): (r: (Store, seq<Reply>))
    ensures |r.1| == |cs|
    decreases |cs|
  {
    if cs == [] then (s, [])
    else
      var (s1, replies) := PerformAll(s, defaults, cs[..|cs| - 1]);
      var (s2, reply) := Perform(s1, defaults, cs[|cs| - 1]);
      (s2, replies + [reply])
  }

  // ---------- Files that stand for a row

  /** The slot holds the text of this map's tree and the hash of that text; or nothing. */
  ghost predicate SlotHolds(text: TextCodec, files: Files, slot: nat, entry: Option<KvsMap>) {
    match entry
    case None => File(slot, Json) !in files && File(slot, Hash) !in files
    case Some(m) =>
      && File(slot, Json) in files && File(slot, Hash) in files
      && TextStandsFor(text, files[File(slot, Json)], m)
      && files[File(slot, Hash)] == HashBytes(Checksum(files[File(slot, Json)]))
  }

  predicate TextStandsFor(text: TextCodec, t: Bytes, m: KvsMap) {
    text.utf8(t) && text.parse(t) == Some(Encode(Object(m)))
  }

  ghost predicate Represents(text: TextCodec, files: Files, window: seq<Option<KvsMap>>) {
    && (forall f: File | f in files :: f.slot < |window|)
    && forall k | 0 <= k < |window| :: SlotHolds(text, files, k, window[k])
  }

  lemma EmptyDirectory(text: TextCodec, max: nat)
    ensures Represents(text, map[], Absent(max))
  {
  }

  /** Loading any slot gives the map that stands there, its 64-bit integers rounded, and
      FileNotFound if there is none. */
  lemma LoadsTheEntry(text: TextCodec, files: Files, window: seq<Option<KvsMap>>, slot: nat)
    requires Represents(text, files, window)
    ensures LoadSlot(text, files, slot)
            == if slot < |window| && window[slot].Some? then Ok(RoundedMap(window[slot].value)) else Err(FileNotFound)
  {
    if slot < |window| {
      assert SlotHolds(text, files, slot, window[slot]);
      if window[slot].Some? {
        AcceptedHashFiles(files[File(slot, Json)], files[File(slot, Hash)]);
        RoundTrip(Object(window[slot].value));
      }
    }
  }

  lemma CountsTheRow(text: TextCodec, files: Files, window: seq<Option<KvsMap>>)
    requires Represents(text, files, window)
    ensures Leading(Column(files, Json, |window|)) == Leading(window)
  {
    forall k | 0 <= k < |window|
      ensures Column(files, Json, |window|)[k].Some? <==> window[k].Some?
    {
      assert SlotHolds(text, files, k, window[k]);
    }
    LeadingIs(Column(files, Json, |window|), Leading(window));
  }

  lemma NoneHalf(text: TextCodec, files: Files, window: seq<Option<KvsMap>>, n: nat)
    requires Represents(text, files, window) && n <= |window|
    ensures RotateOk(files, n)
  {
    forall k | 0 <= k < n ensures !Half(files, k) {
      assert SlotHolds(text, files, k, window[k]);
    }
    BlockedByHighestHalf(files, n);
  }

  lemma PrintedTextStands(text: TextCodec, m: KvsMap, order: nat)
    requires text.RoundTrips() && text.PrintsFinite()
    ensures var t := TextOf(text, m, order);
            && (t.Some? <==> Entry(m).Some?)
            && (t.Some? ==> TextStandsFor(text, t.value, m))
  {
    FiniteEncoding(Object(m));
  }

  /** A flush on files that stand for a row leaves files that stand for the advanced row. */
  lemma FlushKeepsRepresentation(text: TextCodec, files: Files, window: seq<Option<KvsMap>>, m: KvsMap, order: nat)
    requires text.RoundTrips() && text.PrintsFinite()
    requires window != [] && Represents(text, files, window)
    ensures Represents(text, Flushed(text, files, |window|, m, order), Advance(window, 0, Entry(m)))
    ensures FlushOutcome(text, files, |window|, m, order)
            == if Entry(m).Some? then Ok(()) else Err(JsonGeneratorError)
  {
    var max, t := |window|, TextOf(text, m, order);
    NoneHalf(text, files, window, max - 1);
    FlushAdvances(text, files, max, m, order);
    PrintedTextStands(text, m, order);
    var after := Flushed(text, files, max, m, order);
    forall k | 0 <= k < max
      ensures SlotHolds(text, after, k, Advance(window, 0, Entry(m))[k])
    {
      AdvanceKeepsSlot(text, files, after, window, m, t, k);
    }
    assert forall f: File | f.slot >= max :: Look(after, f) == Look(files, f);
  }

  /** Slot by slot: the shift takes the json, the hash and the entry from the same old slot. */
  lemma AdvanceKeepsSlot(text: TextCodec, files: Files, after: Files, window: seq<Option<KvsMap>>,
                         m: KvsMap, t: Option<Bytes>, k: nat)
    requires Represents(text, files, window) && k < |window|
    requires t.Some? <==> Entry(m).Some?
    requires t.Some? ==> TextStandsFor(text, t.value, m)
    requires Advanced(files, after, |window|, t)
    ensures SlotHolds(text, after, k, Advance(window, 0, Entry(m))[k])
  {
    var max := |window|;
    assert SlotHolds(text, files, k, window[k]);
    if k > 0 { assert SlotHolds(text, files, k - 1, window[k - 1]); }
    AdvancedFile(files, after, max, Json, t, k);
    AdvancedFile(files, after, max, Hash, HashOf(t), k);
  }

  /** The file at slot k of an advanced family. */
  lemma AdvancedFile(files: Files, after: Files, max: nat, kind: Kind, entry: Option<Bytes>, k: nat)
    requires k < max && Column(after, kind, max) == Advance(Column(files, kind, max), 0, entry)
    ensures Look(after, File(k, kind)) ==
              if k == 0 && entry.Some? then entry else MovedFile(files, kind, max, 0, k)
  {
    assert Look(after, File(k, kind)) == Column(after, kind, max)[k];
  }

  // ---------- Whole runs

  /** The maps that the flushes of a run find in memory, oldest first. */
  function FlushedMaps(s: Store, defaults: KvsMap, cs: seq<Command>): seq<KvsMap>
    decreases |cs|
  {
    if cs == [] then []
    else
      var init := cs[..|cs| - 1];
      FlushedMaps(s, defaults, init)
      + if cs[|cs| - 1].Flush? then [PerformAll(s, defaults, init).0.memory] else []
  }

  function Entries(maps: seq<KvsMap>): (r: seq<Option<KvsMap>>)
    ensures |r| == |maps|
  {
    seq(|maps|, i requires 0 <= i < |maps| => Entry(maps[i]))
  }

  lemma RowAfterStep(s: Store, defaults: KvsMap, c: Command)
    ensures Perform(s, defaults, c).0.window
            == if c.Flush? then Advance(s.window, 0, Entry(s.memory)) else s.window
  {
  }

  lemma EntriesOneMore(maps: seq<KvsMap>, m: KvsMap)
    ensures Entries(maps + [m]) == Entries(maps) + [Entry(m)]
  {
  }

  /** After any run, the row is the initial row advanced by the flushed maps. */
  lemma {:induction false} RowAfterRun(s: Store, defaults: KvsMap, cs: seq<Command>)
    ensures PerformAll(s, defaults, cs).0.window
            == AdvanceAll(s.window, 0, Entries(FlushedMaps(s, defaults, cs)))
    decreases |cs|
  {
    if cs != [] {
      var init, last := cs[..|cs| - 1], cs[|cs| - 1];
      var maps, before := FlushedMaps(s, defaults, init), PerformAll(s, defaults, init).0;
      RowAfterRun(s, defaults, init);
      RowAfterStep(before, defaults, last);
      assert PerformAll(s, defaults, cs).0 == Perform(before, defaults, last).0;
      if last.Flush? {
        EntriesOneMore(maps, before.memory);
        AdvanceAllOneMore(s.window, 0, Entries(maps), Entry(before.memory));
      } else {
        assert maps + [] == maps;
      }
    }
  }

  /** The history theorem. After any run from an empty directory in which every flushed map could be
      printed, slot k holds the k-th newest flushed map and every other slot is empty. */
  lemma {:induction false} RunKeepsHistory(initial: KvsMap, defaults: KvsMap, max: nat, cs: seq<Command>)
    requires forall m | m in FlushedMaps(Store(initial, Absent(max)), defaults, cs) :: FiniteValue(Object(m))
    ensures var start := Store(initial, Absent(max));
            var window := PerformAll(start, defaults, cs).0.window;
            |window| == max && ShowsLatest(window, FlushedMaps(start, defaults, cs))
  {
    var start := Store(initial, Absent(max));
    var maps, window := FlushedMaps(start, defaults, cs), PerformAll(start, defaults, cs).0.window;
    RowAfterRun(start, defaults, cs);
    PrintableEntries(maps);
    if max > 0 {
      OnlyPushesStand(max, maps, window);
    }
  }

  /** On such a row the count is min(flushes, max), and restoring the k-th snapshot gives the k-th
      newest flushed map, with the exact error otherwise. */
  lemma RepliesFromHistory(s: Store, defaults: KvsMap, maps: seq<KvsMap>, k: nat)
    requires ShowsLatest(s.window, maps)
    ensures var count := Least(|maps|, |s.window|);
            && Perform(s, defaults, Count) == (s, Counted(count))
            && Perform(s, defaults, Restore(k)) ==
                 if 1 <= k < count then (s.(memory := RoundedMap(maps[|maps| - 1 - k])), Success)
                 else if 1 <= k == count then (s, Refused(FileNotFound))
                 else (s, Refused(InvalidSnapshotId))
  {
    CountOfLatest(s.window, maps);
  }

  lemma PrintableEntries(maps: seq<KvsMap>)
    requires forall m | m in maps :: FiniteValue(Object(m))
    ensures Entries(maps) == Present(maps)
  {
  }

  lemma CountOfLatest(window: seq<Option<KvsMap>>, maps: seq<KvsMap>)
    requires ShowsLatest(window, maps)
    ensures Leading(window) == Least(|maps|, |window|)
  {
    LeadingIs(window, Least(|maps|, |window|));
  }

  // ---------- What is in memory after a run

  function At(m: KvsMap, key: string): Option<KvsValue> {
    if key in m then Some(m[key]) else None
  }

  /** The command, answered like this, decides what is at the key. */
  predicate Touches(defaults: KvsMap, c: Command, reply: Reply, key: string) {
    match c
    case Set(k, _) => k == key
    case Remove(k) => k == key
    case Reset => true
    case ResetKey(k) => k == key && key in defaults
    case Restore(_) => reply == Success
    case _ => false
  }

  /** What a command that touches the key leaves there; `before` is the row it finds. */
  function Left(c: Command, before: seq<Option<KvsMap>>, key: string): Option<KvsValue> {
    match c
    case Set(_, value) => Some(value)
    case Restore(id) => if id < |before| && before[id].Some? then At(RoundedMap(before[id].value), key) else None
    case _ => None
  }

  lemma OneCommandAt(s: Store, defaults: KvsMap, c: Command, key: string)
    ensures var (s', reply) := Perform(s, defaults, c);
            At(s'.memory, key) == if Touches(defaults, c, reply, key) then Left(c, s.window, key) else At(s.memory, key)
  {
  }

  lemma {:induction false} PrefixOfRun(s: Store, defaults: KvsMap, cs: seq<Command>, i: nat)
    requires i < |cs|
    ensures var before := PerformAll(s, defaults, cs[..i]).0;
            && PerformAll(s, defaults, cs).1[i] == Perform(before, defaults, cs[i]).1
            && PerformAll(s, defaults, cs[..i + 1]).0 == Perform(before, defaults, cs[i]).0
    decreases |cs|
  {
    var init := cs[..|cs| - 1];
    if i < |init| {
      PrefixOfRun(s, defaults, init, i);
      assert init[..i] == cs[..i] && init[..i + 1] == cs[..i + 1] && init[i] == cs[i];
    }
    assert cs[..i + 1][..i] == cs[..i];
  }

  /** No command from i on, up to n, touches the key. */
  ghost predicate Untouched(defaults: KvsMap, cs: seq<Command>, replies: seq<Reply>, i: nat, n: nat, key: string)
    requires n <= |cs| == |replies|
  {
    forall j :: i <= j < n ==> !Touches(defaults, cs[j], replies[j], key)
  }

  lemma {:induction false} UntouchedStays(s: Store, defaults: KvsMap, cs: seq<Command>, i: nat, n: nat, key: string)
    requires i <= n <= |cs| && Untouched(defaults, cs, PerformAll(s, defaults, cs).1, i, n, key)
    ensures At(PerformAll(s, defaults, cs[..n]).0.memory, key) == At(PerformAll(s, defaults, cs[..i]).0.memory, key)
    decreases n
  {
    if i < n {
      UntouchedStays(s, defaults, cs, i, n - 1, key);
      PrefixOfRun(s, defaults, cs, n - 1);
      OneCommandAt(PerformAll(s, defaults, cs[..n - 1]).0, defaults, cs[n - 1], key);
    }
  }

  /** After any run, what is at a key is what the last command that touched it left there: the value that was
      set, nothing after a removal or a reset, or the value of the restored snapshot. */
  lemma LastTouchDecides(s: Store, defaults: KvsMap, cs: seq<Command>, i: nat, n: nat, key: string)
    requires i < n <= |cs|
    requires Touches(defaults, cs[i], PerformAll(s, defaults, cs).1[i], key)
    requires Untouched(defaults, cs, PerformAll(s, defaults, cs).1, i + 1, n, key)
    ensures At(PerformAll(s, defaults, cs[..n]).0.memory, key)
            == match cs[i]
               case Set(_, value) => Some(value)
               case Restore(id) =>
                 var row := PerformAll(s, defaults, cs[..i]).0.window;
                 if id < |row| && row[id].Some? then At(RoundedMap(row[id].value), key) else None
               case _ => None
  {
    UntouchedStays(s, defaults, cs, i + 1, n, key);
    PrefixOfRun(s, defaults, cs, i);
    OneCommandAt(PerformAll(s, defaults, cs[..i]).0, defaults, cs[i], key);
  }

  /** A key that no command touched has its initial value, and a lookup answers with what is in memory, else
      with the default, else with KeyNotFound. */
  lemma LookupAnswers(s: Store, defaults: KvsMap, cs: seq<Command>, n: nat, key: string)
    requires n < |cs| && cs[n] == Get(key)
    ensures var memory := PerformAll(s, defaults, cs[..n]).0.memory;
            && PerformAll(s, defaults, cs).1[n]
               == (if key in memory then Found(memory[key])
                   else if key in defaults then Found(defaults[key]) else Refused(KeyNotFound))
            && (Untouched(defaults, cs, PerformAll(s, defaults, cs).1, 0, n, key) ==>
                  At(memory, key) == At(s.memory, key))
  {
    PrefixOfRun(s, defaults, cs, n);
    if Untouched(defaults, cs, PerformAll(s, defaults, cs).1, 0, n, key) {
      UntouchedStays(s, defaults, cs, 0, n, key);
      assert cs[..0] == [];
    }
  }
}
