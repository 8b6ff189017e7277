/** Whole runs of the Rust store in which any flush can be cut short after any of its file changes, by
    an I/O failure or by the end of the process, and in which the process can start again. */
module FaultyRuns {
  import opened Values
  import opened Storage
  import opened Adler32
  import opened JsonCodec
  import opened Rotation
  import opened RustBackend
  import opened History
  import opened Reopening
  import InstancePool

  /** `flushed` records every map that a flush was called on, whether the flush succeeded or not. */
  datatype World = World(memory: KvsMap, files: Files, flushed: seq<KvsMap>)

  datatype Event =
    | Change(newMap: KvsMap)
    | Flush(order: nat, done: nat)
    | Restore(id: nat)
    | Reopen(mode: InstancePool.Mode)

  /** A store that keeps no snapshots ignores flushes. */
  function Steps(text: TextCodec, max: nat, w: World, order: nat): seq<Step> {
    if max == 0 then [] else FlushSteps(text, w.files, max, w.memory, order)
  }

  predicate Enabled(text: TextCodec, max: nat, w: World, e: Event) {
    e.Flush? ==> e.done <= |Steps(text, max, w, e.order)|
  }

  /** What a flush answers of whose file changes `done` go through. */
  function Answer(text: TextCodec, max: nat, w: World, order: nat, done: nat): Result<()> {
    if max == 0 then Ok(())
    else if done < |Steps(text, max, w, order)| then Err(UnmappedError)
    else FlushOutcome(text, w.files, max, w.memory, order)
  }

  function Next(text: TextCodec, max: nat, w: World, e: Event): World
    requires Enabled(text, max, w, e)
  {
    match e
    case Change(m) => w.(memory := m)
    case Flush(order, done) =>
      w.(files := Run(w.files, Steps(text, max, w, order)[..done]), flushed := w.flushed + [w.memory])
    case Restore(id) =>
      (match RestoreSlot(text, w.files, max, id)
       case Ok(m) => w.(memory := m)
       case Err(_) => w)
    case Reopen(mode) =>
      (match OpenedMap(text, w.files, mode)
       case Ok(m) => w.(memory := m)
       case Err(_) => w)
  }

  predicate IsStep(text: TextCodec, max: nat, w: World, e: Event, w': World) {
    Enabled(text, max, w, e) && w' == Next(text, max, w, e)
  }

  ghost predicate IsRun(text: TextCodec, max: nat, ws: seq<World>, es: seq<Event>) {
    && |ws| == |es| + 1
    && forall i: nat :: i < |es| ==> IsStep(text, max, ws[i], es[i], ws[i + 1])
  }

  /** One event carried out by the backend: a flush on a disk that lets `done` changes through, a restore,
      or the load of a build in this mode. */
  method CarryOut(text: TextCodec, max: nat, w: World, e: Event) returns (w': World, answer: Result<()>)
    requires Enabled(text, max, w, e)
    ensures w' == Next(text, max, w, e)
    ensures e.Flush? ==> answer == Answer(text, max, w, e.order, e.done)
    ensures e.Change? ==> w' == w.(memory := e.newMap)
    ensures e.Flush? ==> w'.memory == w.memory && w'.flushed == w.flushed + [w.memory]
    ensures e.Flush? && max == 0 ==> w'.files == w.files && answer == Ok(())
    ensures e.Restore? || e.Reopen? ==>
              var loaded := if e.Restore? then RestoreSlot(text, w.files, max, e.id)
                            else InstancePool.LoadUnder(e.mode, LoadSlot(text, w.files, 0));
              && w'.files == w.files && w'.flushed == w.flushed
              && (loaded.Ok? ==> answer == Ok(()) && w'.memory == loaded.value)
              && (loaded.Err? ==> answer == Err(loaded.error) && w'.memory == w.memory)
  {
    w', answer := w, Ok(());
    var disk := new Disk(w.files, if e.Flush? then Some(e.done) else None);
    var backend := new JsonBackend(disk, max, text);
    match e
    case Change(m) =>
      w' := w.(memory := m);
    case Flush(order, done) =>
      if max > 0 {
        answer := backend.Flush(w.memory, order);
      }
      w' := w.(files := disk.files, flushed := w.flushed + [w.memory]);
    case Restore(id) =>
      var r := backend.SnapshotRestore(id);
      match r {
        case Ok(m) => w' := w.(memory := m);
        case Err(error) => answer := Err(error);
      }
    case Reopen(mode) =>
      var loaded := backend.Load(0);
      var r := InstancePool.LoadFile(mode, loaded);
      match r {
        case Ok(m) => w' := w.(memory := m);
        case Err(error) => answer := Err(error);
      }
  }

  // ---------- Nothing but flushed maps

  /** The text shows a map that some flush was called on. */
  ghost predicate Printed(text: TextCodec, flushed: seq<KvsMap>, t: Bytes) {
    exists m :: m in flushed && TextStandsFor(text, t, m)
  }

  ghost predicate PrintedHash(text: TextCodec, flushed: seq<KvsMap>, h: Bytes) {
    exists t :: Printed(text, flushed, t) && h == HashBytes(Checksum(t))
  }

  ghost predicate Content(text: TextCodec, flushed: seq<KvsMap>, kind: Kind, data: Bytes) {
    if kind.Json? then Printed(text, flushed, data) else PrintedHash(text, flushed, data)
  }

  /** Every json file is a text that some flush printed, and every hash file the hash of one. */
  ghost predicate OnlyFlushed(text: TextCodec, flushed: seq<KvsMap>, files: Files) {
    forall f | f in files :: Content(text, flushed, f.kind, files[f])
  }

  ghost predicate Tidy(text: TextCodec, flushed: seq<KvsMap>, step: Step) {
    match step
    case Rename(src, dst) => src.kind == dst.kind
    case Write(f, data) => Content(text, flushed, f.kind, data)
  }

  lemma {:induction false} TidyStepsKeep(text: TextCodec, flushed: seq<KvsMap>, files: Files, steps: seq<Step>)
    requires OnlyFlushed(text, flushed, files) && forall s | s in steps :: Tidy(text, flushed, s)
    ensures OnlyFlushed(text, flushed, Run(files, steps))
    decreases |steps|
  {
    if steps != [] {
      assert Tidy(text, flushed, steps[0]);
      TidyStepsKeep(text, flushed, Apply(files, steps[0]), steps[1..]);
    }
  }

  lemma {:induction false} RotationIsTidy(text: TextCodec, flushed: seq<KvsMap>, files: Files, n: nat)
    ensures forall s | s in RotateSteps(files, n) :: Tidy(text, flushed, s)
    decreases n
  {
    if n > 0 && !Half(files, n - 1) {
      RotationIsTidy(text, flushed, OneRound(files, n), n - 1);
    }
  }

  lemma FlushIsTidy(text: TextCodec, flushed: seq<KvsMap>, files: Files, max: nat, m: KvsMap, order: nat)
    requires text.RoundTrips() && text.PrintsFinite() && m in flushed
    ensures forall s | s in FlushSteps(text, files, max, m, order) :: Tidy(text, flushed, s)
  {
    RotationIsTidy(text, flushed, files, Rounds(max));
    PrintedTextStands(text, m, order);
    var t := TextOf(text, m, order);
    if t.Some? {
      assert Printed(text, flushed, t.value);
      assert PrintedHash(text, flushed, HashBytes(Checksum(t.value)));
    }
  }

  lemma MoreFlushed(text: TextCodec, flushed: seq<KvsMap>, m: KvsMap, files: Files)
    requires OnlyFlushed(text, flushed, files)
    ensures OnlyFlushed(text, flushed + [m], files)
  {
    forall t | Printed(text, flushed, t) ensures Printed(text, flushed + [m], t) {
      var x :| x in flushed && TextStandsFor(text, t, x);
      assert x in flushed + [m];
    }
    forall f | f in files ensures Content(text, flushed + [m], f.kind, files[f]) {
      assert Content(text, flushed, f.kind, files[f]);
    }
  }

  lemma CutFlushKeepsOnlyFlushed(text: TextCodec, max: nat, w: World, order: nat, done: nat)
    requires text.RoundTrips() && text.PrintsFinite() && OnlyFlushed(text, w.flushed, w.files)
    requires Enabled(text, max, w, Event.Flush(order, done))
    ensures var w' := Next(text, max, w, Event.Flush(order, done)); OnlyFlushed(text, w'.flushed, w'.files)
  {
    var flushed, steps := w.flushed + [w.memory], Steps(text, max, w, order);
    MoreFlushed(text, w.flushed, w.memory, w.files);
    FlushIsTidy(text, flushed, w.files, max, w.memory, order);
    TidyStepsKeep(text, flushed, w.files, steps[..done]);
  }

  lemma NextKeepsOnlyFlushed(text: TextCodec, max: nat, w: World, e: Event, w': World)
    requires text.RoundTrips() && text.PrintsFinite() && OnlyFlushed(text, w.flushed, w.files)
    requires IsStep(text, max, w, e, w')
    ensures OnlyFlushed(text, w'.flushed, w'.files)
  {
    if e.Flush? {
      CutFlushKeepsOnlyFlushed(text, max, w, e.order, e.done);
    }
  }

  lemma {:induction false} RunKeepsOnlyFlushed(text: TextCodec, max: nat, ws: seq<World>, es: seq<Event>, n: nat)
    requires text.RoundTrips() && text.PrintsFinite()
    requires IsRun(text, max, ws, es) && n <= |es| && OnlyFlushed(text, ws[0].flushed, ws[0].files)
    ensures OnlyFlushed(text, ws[n].flushed, ws[n].files)
  {
    if n > 0 {
      RunKeepsOnlyFlushed(text, max, ws, es, n - 1);
      assert IsStep(text, max, ws[n - 1], es[n - 1], ws[n]);
      NextKeepsOnlyFlushed(text, max, ws[n - 1], es[n - 1], ws[n]);
    }
  }

  /** Such files load nothing but flushed maps. */
  lemma LoadsFlushed(text: TextCodec, flushed: seq<KvsMap>, files: Files, slot: nat, r: KvsMap) returns (m: KvsMap)
    requires OnlyFlushed(text, flushed, files) && LoadSlot(text, files, slot) == Ok(r)
    ensures m in flushed && r == RoundedMap(m)
  {
    LoadsOnlyMatchingPairs(text, files, slot, r);
    var t := files[File(slot, Json)];
    assert Content(text, flushed, Json, t);
    m :| m in flushed && TextStandsFor(text, t, m);
    RoundTrip(Object(m));
  }

  /** In any run from an empty directory, with any failures, crashes and restarts: a restore that
      succeeds gives a map that some earlier flush was called on, and so does opening, unless the mode
      lets it start with an empty map. */
  lemma OnlyFlushedMapsComeBack(text: TextCodec, max: nat, ws: seq<World>, es: seq<Event>, n: nat, r: KvsMap)
    requires text.RoundTrips() && text.PrintsFinite()
    requires IsRun(text, max, ws, es) && n < |es| && ws[0].files == map[]
    requires || (es[n].Restore? && RestoreSlot(text, ws[n].files, max, es[n].id) == Ok(r))
             || (es[n].Reopen? && OpenedMap(text, ws[n].files, es[n].mode) == Ok(r))
    ensures || (exists m :: m in ws[n].flushed && r == RoundedMap(m))
            || (es[n].Reopen? && !es[n].mode.Required? && r == map[])
  {
    RunKeepsOnlyFlushed(text, max, ws, es, n);
    var slot := if es[n].Restore? then es[n].id else 0;
    if LoadSlot(text, ws[n].files, slot) == Ok(r) {
      var m := LoadsFlushed(text, ws[n].flushed, ws[n].files, slot, r);
    }
  }

  // ---------- Stuck for good

  /** A blocked disk stays blocked, however far a flush gets. */
  lemma CutFlushStaysBlocked(text: TextCodec, files: Files, max: nat, m: KvsMap, order: nat, done: nat)
    requires max > 0 && !RotateOk(files, max - 1) && done <= |FlushSteps(text, files, max, m, order)|
    ensures !RotateOk(Run(files, FlushSteps(text, files, max, m, order)[..done]), max - 1)
  {
    var n := max - 1;
    var steps, k := FlushSteps(text, files, max, m, order), Blocked(files, n) - 1;
    assert steps == RotateSteps(files, n);
    var lo, lo' := RotationPrefix(files, n, done);
    var now := Run(files, steps[..done]);
    ShiftedSlot(files, now, n, lo, lo', k);
    BlockedByHighestHalf(files, n);
    BlockedByHighestHalf(now, n);
    assert Half(now, k);
  }

  /** Once a half-present slot lies below the last one, no later flush succeeds: not after a restore,
      not after a restart, not in any run. */
  lemma {:induction false} StuckForGood(text: TextCodec, max: nat, ws: seq<World>, es: seq<Event>, i: nat, n: nat)
    requires max > 0 && IsRun(text, max, ws, es) && i <= n <= |es|
    requires !RotateOk(ws[i].files, max - 1)
    ensures !RotateOk(ws[n].files, max - 1)
    ensures n < |es| && es[n].Flush? ==> Answer(text, max, ws[n], es[n].order, es[n].done).Err?
    decreases n
  {
    if i < n {
      StuckForGood(text, max, ws, es, i, n - 1);
      assert IsStep(text, max, ws[n - 1], es[n - 1], ws[n]);
      if es[n - 1].Flush? {
        CutFlushStaysBlocked(text, ws[n - 1].files, max, ws[n - 1].memory, es[n - 1].order, es[n - 1].done);
      }
    }
  }
}
