/** Threads that share one store of the Rust implementation, interleaved at every lock, every
    change of the map, every file change and every unlock: each flush takes effect as one step, at
    the moment it gets the lock. */
module Linearisation {
  import opened Values
  import opened Storage
  import opened Timeline
  import opened Adler32
  import opened JsonCodec
  import opened Rotation
  import opened History

  type Thread = nat

  /** Where a thread is. The flush positions follow the source: `Rotating(n)` before looking at slot
      n - 1, `HashMoved(n)` after the first of its two renames, `Saving` before the map is printed. */
  datatype Position =
    | Idle
    | Updating
    | Rotating(n: nat, order: nat)
    | HashMoved(n: nat, order: nat)
    | Saving(order: nat)
    | JsonWritten(text: Bytes)
    | Leaving(outcome: Result<()>)

  datatype World = World(
    memory: KvsMap,
    files: Files,
    owner: Option<Thread>,
    at: map<Thread, Position>,
    flushed: seq<KvsMap>,  // record: memory at each flush's lock acquisition, in lock order
    base: Files)           // record: files at the last of these acquisitions

  datatype Event =
    | LockForUpdate(t: Thread)
    | LockForFlush(t: Thread, order: nat)
    | Update(t: Thread, newMap: KvsMap)
    | FileStep(t: Thread)
    | Unlock(t: Thread)

  function Where(w: World, t: Thread): Position {
    if t in w.at then w.at[t] else Idle
  }

  predicate InFlush(p: Position) {
    p.Rotating? || p.HashMoved? || p.Saving? || p.JsonWritten?
  }

  /** One atomic piece of a flush, reading the memory only where the source reads it. */
  function FlushStep(text: TextCodec, files: Files, p: Position, memory: KvsMap): (Files, Position)
    requires InFlush(p) && (p.HashMoved? ==> p.n > 0)
  {
    match p
    case Rotating(n, order) =>
      if n == 0 then (files, Saving(order))
      else if Half(files, n - 1) then (files, Leaving(Err(IntegrityCorrupted)))
      else if File(n - 1, Json) !in files then (files, Rotating(n - 1, order))
      else (Apply(files, MoveUp(n)[0]), HashMoved(n, order))
    case HashMoved(n, order) => (Apply(files, MoveUp(n)[1]), Rotating(n - 1, order))
    case Saving(order) =>
      (match TextOf(text, memory, order)
       case None => (files, Leaving(Err(JsonGeneratorError)))
       case Some(t) => (Apply(files, Write(File(0, Json), t)), JsonWritten(t)))
    case JsonWritten(t) => (Apply(files, Write(File(0, Hash), HashBytes(Checksum(t)))), Leaving(Ok(())))
  }

  /** What a thread may do next. The lock is the only thing that keeps threads apart. */
  predicate Enabled(w: World, e: Event) {
    match e
    case LockForUpdate(t) => w.owner.None? && Where(w, t).Idle?
    case LockForFlush(t, _) => w.owner.None? && Where(w, t).Idle?
    case Update(t, _) => Where(w, t).Updating?
    case FileStep(t) => InFlush(Where(w, t)) && (Where(w, t).HashMoved? ==> Where(w, t).n > 0)
    case Unlock(t) => Where(w, t).Updating? || Where(w, t).Leaving?
  }

  function Next(text: TextCodec, max: nat, w: World, e: Event): World
    requires Enabled(w, e)
  {
    match e
    case LockForUpdate(t) => w.(owner := Some(t), at := w.at[t := Updating])
    case LockForFlush(t, order) =>
      w.(owner := Some(t), at := w.at[t := Rotating(Rounds(max), order)],
         flushed := w.flushed + [w.memory], base := w.files)
    case Update(t, m) => w.(memory := m)
    case FileStep(t) =>
      var (files, p) := FlushStep(text, w.files, Where(w, t), w.memory);
      w.(files := files, at := w.at[t := p])
    case Unlock(t) => w.(owner := None, at := w.at[t := Idle])
  }

  ghost predicate Reachable(text: TextCodec, max: nat, start: World, events: seq<Event>, w: World)
    decreases |events|
  {
    if events == [] then w == start
    else
      var n := |events| - 1;
      exists v :: Reachable(text, max, start, events[..n], v) && Enabled(v, events[n])
                  && w == Next(text, max, v, events[n])
  }

  // ---------- A flush run to its end

  function Remaining(p: Position): nat {
    match p
    case Rotating(n, _) => 2 * n + 3
    case HashMoved(n, _) => 2 * n + 2
    case Saving(_) => 2
    case JsonWritten(_) => 1
    case _ => 0
  }

  /** The files once the flush in this position has made all its remaining steps undisturbed. */
  function Finish(text: TextCodec, files: Files, p: Position, memory: KvsMap): Files
    decreases Remaining(p)
  {
    if InFlush(p) && (p.HashMoved? ==> p.n > 0) then
      var (files', p') := FlushStep(text, files, p, memory);
      Finish(text, files', p', memory)
    else files
  }

  /** The steps of a flush whose rotation is about to look at slot n - 1. */
  function StepsFrom(text: TextCodec, files: Files, n: nat, memory: KvsMap, order: nat): seq<Step> {
    RotateSteps(files, n) + if RotateOk(files, n) then SaveSteps(text, memory, order) else []
  }

  lemma {:induction false} FinishIsFlush(text: TextCodec, files: Files, n: nat, memory: KvsMap, order: nat)
    ensures Finish(text, files, Rotating(n, order), memory)
            == Run(files, StepsFrom(text, files, n, memory, order))
    decreases n
  {
    if n == 0 {
      FinishSaving(text, files, memory, order);
      assert RotateSteps(files, 0) + SaveSteps(text, memory, order) == SaveSteps(text, memory, order);
    } else if Half(files, n - 1) {
      assert Finish(text, files, Leaving(Err(IntegrityCorrupted)), memory) == files;
    } else if File(n - 1, Json) !in files {
      FinishIsFlush(text, files, n - 1, memory, order);
    } else {
      FinishIsFlush(text, OneRound(files, n), n - 1, memory, order);
      FinishOneRound(text, files, n, memory, order);
    }
  }

  lemma FinishOneRound(text: TextCodec, files: Files, n: nat, memory: KvsMap, order: nat)
    requires n > 0 && File(n - 1, Json) in files && File(n - 1, Hash) in files
    requires var next := OneRound(files, n);
             Finish(text, next, Rotating(n - 1, order), memory)
             == Run(next, StepsFrom(text, next, n - 1, memory, order))
    ensures Finish(text, files, Rotating(n, order), memory) == Run(files, StepsFrom(text, files, n, memory, order))
  {
    var next := OneRound(files, n);
    OneRoundBlocked(files, n);
    assert StepsFrom(text, files, n, memory, order) == MoveUp(n) + StepsFrom(text, next, n - 1, memory, order);
    RunConcat(files, MoveUp(n), StepsFrom(text, next, n - 1, memory, order));
    TwoSteps(text, files, n, memory, order);
  }

  lemma TwoSteps(text: TextCodec, files: Files, n: nat, memory: KvsMap, order: nat)
    requires n > 0 && File(n - 1, Json) in files && File(n - 1, Hash) in files
    ensures Finish(text, files, Rotating(n, order), memory)
            == Finish(text, Run(files, MoveUp(n)), Rotating(n - 1, order), memory)
  {
    var hashMoved := Apply(files, MoveUp(n)[0]);
    RunTwo(files, MoveUp(n)[0], MoveUp(n)[1]);
    assert Finish(text, files, Rotating(n, order), memory) == Finish(text, hashMoved, HashMoved(n, order), memory);
  }

  lemma FinishSaving(text: TextCodec, files: Files, memory: KvsMap, order: nat)
    ensures Finish(text, files, Rotating(0, order), memory) == Run(files, SaveSteps(text, memory, order))
  {
    var t := TextOf(text, memory, order);
    assert Finish(text, files, Rotating(0, order), memory) == Finish(text, files, Saving(order), memory);
    if t.Some? {
      var save := SaveSteps(text, memory, order);
      RunTwo(files, save[0], save[1]);
      assert Finish(text, files, Saving(order), memory)
          == Finish(text, Apply(files, save[0]), JsonWritten(t.value), memory);
      assert Finish(text, Apply(files, save[0]), JsonWritten(t.value), memory)
          == Finish(text, Apply(Apply(files, save[0]), save[1]), Leaving(Ok(())), memory);
    } else {
      assert SaveSteps(text, memory, order) == [];
      assert Finish(text, files, Saving(order), memory)
          == Finish(text, files, Leaving(Err(JsonGeneratorError)), memory) == files;
    }
  }

  /** Where the thread is once it has made all its remaining steps undisturbed. */
  function Ended(text: TextCodec, files: Files, p: Position, memory: KvsMap): Position
    decreases Remaining(p)
  {
    if InFlush(p) && (p.HashMoved? ==> p.n > 0) then
      var (files', p') := FlushStep(text, files, p, memory);
      Ended(text, files', p', memory)
    else p
  }

  lemma {:induction false} FinishAnswers(text: TextCodec, files: Files, n: nat, memory: KvsMap, order: nat)
    ensures Ended(text, files, Rotating(n, order), memory)
            == Leaving(if exists k: nat :: k < n && Half(files, k) then Err(IntegrityCorrupted)
                       else if TextOf(text, memory, order).None? then Err(JsonGeneratorError) else Ok(()))
    decreases n
  {
    if n == 0 {
      SavingAnswers(text, files, memory, order);
    } else if Half(files, n - 1) {
      assert Ended(text, files, Leaving(Err(IntegrityCorrupted)), memory) == Leaving(Err(IntegrityCorrupted));
    } else if File(n - 1, Json) !in files {
      FinishAnswers(text, files, n - 1, memory, order);
    } else {
      FinishAnswers(text, OneRound(files, n), n - 1, memory, order);
      RoundKeepsHalves(files, n);
      EndedAfterRound(text, files, n, memory, order);
    }
  }

  lemma RoundKeepsHalves(files: Files, n: nat)
    requires n > 0 && !Half(files, n - 1)
    ensures (exists k: nat :: k < n && Half(files, k)) <==> exists k: nat :: k < n - 1 && Half(OneRound(files, n), k)
  {
    forall k: nat | k < n - 1 ensures Half(OneRound(files, n), k) <==> Half(files, k) {
      LowerSlotStays(files, n, k);
    }
    if k: nat :| k < n && Half(files, k) {
      assert Half(OneRound(files, n), k);
    }
  }

  lemma EndedAfterRound(text: TextCodec, files: Files, n: nat, memory: KvsMap, order: nat)
    requires n > 0 && File(n - 1, Json) in files && File(n - 1, Hash) in files
    ensures Ended(text, files, Rotating(n, order), memory)
            == Ended(text, OneRound(files, n), Rotating(n - 1, order), memory)
  {
    var hashMoved := Apply(files, MoveUp(n)[0]);
    RunTwo(files, MoveUp(n)[0], MoveUp(n)[1]);
    assert Ended(text, files, Rotating(n, order), memory) == Ended(text, hashMoved, HashMoved(n, order), memory);
  }

  lemma SavingAnswers(text: TextCodec, files: Files, memory: KvsMap, order: nat)
    ensures Ended(text, files, Rotating(0, order), memory)
            == Leaving(if TextOf(text, memory, order).None? then Err(JsonGeneratorError) else Ok(()))
  {
    var t := TextOf(text, memory, order);
    assert Ended(text, files, Rotating(0, order), memory) == Ended(text, files, Saving(order), memory);
    if t.Some? {
      var written := Apply(files, Write(File(0, Json), t.value));
      var saved := Apply(written, Write(File(0, Hash), HashBytes(Checksum(t.value))));
      assert Ended(text, files, Saving(order), memory) == Ended(text, written, JsonWritten(t.value), memory);
      assert Ended(text, written, JsonWritten(t.value), memory) == Ended(text, saved, Leaving(Ok(())), memory);
      assert Ended(text, saved, Leaving(Ok(())), memory) == Leaving(Ok(()));
    } else {
      assert Ended(text, files, Leaving(Err(JsonGeneratorError)), memory) == Leaving(Err(JsonGeneratorError));
    }
  }

  // ---------- The invariant

  function Row(window: seq<Option<KvsMap>>, flushed: seq<KvsMap>): (r: seq<Option<KvsMap>>)
    ensures |r| == |window|
  {
    AdvanceAll(window, 0, Entries(flushed))
  }

  /** A flush under way will end in the files of one undisturbed flush of the map that was in
      memory when it got the lock, and that map is in memory still. */
  ghost predicate UnderWay(text: TextCodec, window: seq<Option<KvsMap>>, w: World, p: Position) {
    && w.flushed != []
    && var n := |w.flushed| - 1;
    && w.memory == w.flushed[n]
    && Represents(text, w.base, Row(window, w.flushed[..n]))
    && (p.HashMoved? ==> p.n > 0)
    && exists order: nat :: Finish(text, w.files, p, w.memory) == Flushed(text, w.base, |window|, w.memory, order)
  }

  ghost predicate Inv(text: TextCodec, window: seq<Option<KvsMap>>, w: World) {
    && (forall t: Thread :: !Where(w, t).Idle? ==> w.owner == Some(t))
    && match w.owner
       case Some(t) =>
         if InFlush(Where(w, t)) then UnderWay(text, window, w, Where(w, t))
         else Represents(text, w.files, Row(window, w.flushed))
       case None => Represents(text, w.files, Row(window, w.flushed))
  }

  lemma NextKeepsInv(text: TextCodec, window: seq<Option<KvsMap>>, w: World, e: Event)
    requires text.RoundTrips() && text.PrintsFinite() && window != []
    requires Inv(text, window, w) && Enabled(w, e)
    ensures Inv(text, window, Next(text, |window|, w, e))
  {
    match e
    case LockForFlush(t, order) =>
      LockStartsFlush(text, window, w, t, order);
    case FileStep(t) =>
      FileStepKeepsInv(text, window, w, t);
    case _ =>
      OtherEventKeepsInv(text, window, w, e);
  }

  lemma OtherEventKeepsInv(text: TextCodec, window: seq<Option<KvsMap>>, w: World, e: Event)
    requires window != [] && Inv(text, window, w) && Enabled(w, e)
    requires e.LockForUpdate? || e.Update? || e.Unlock?
    ensures Inv(text, window, Next(text, |window|, w, e))
  {
    var w' := Next(text, |window|, w, e);
    assert forall u: Thread :: u != e.t ==> Where(w', u) == Where(w, u);
  }

  lemma LockStartsFlush(text: TextCodec, window: seq<Option<KvsMap>>, w: World, t: Thread, order: nat)
    requires window != [] && w.owner.None? && Inv(text, window, w)
    requires Enabled(w, LockForFlush(t, order))
    ensures Inv(text, window, Next(text, |window|, w, LockForFlush(t, order)))
  {
    var flushed, max := w.flushed + [w.memory], |window|;
    assert flushed[..|w.flushed|] == w.flushed;
    FinishIsFlush(text, w.files, Rounds(max), w.memory, order);
    assert Finish(text, w.files, Rotating(Rounds(max), order), w.memory)
        == Flushed(text, w.files, max, w.memory, order);
    var w' := Next(text, max, w, LockForFlush(t, order));
    assert UnderWay(text, window, w', Rotating(Rounds(max), order));
    assert forall u: Thread :: u != t ==> Where(w', u) == Where(w, u);
  }

  lemma FileStepKeepsInv(text: TextCodec, window: seq<Option<KvsMap>>, w: World, t: Thread)
    requires text.RoundTrips() && text.PrintsFinite() && window != []
    requires Inv(text, window, w) && Enabled(w, FileStep(t))
    ensures Inv(text, window, Next(text, |window|, w, FileStep(t)))
  {
    var (files, p) := FlushStep(text, w.files, Where(w, t), w.memory);
    var w' := Next(text, |window|, w, FileStep(t));
    assert forall u: Thread :: u != t ==> Where(w', u) == Where(w, u);
    StepNearerToFinish(text, w.files, Where(w, t), w.memory);
    if InFlush(p) {
      FlushGoesOn(text, window, w, w', Where(w, t), p);
    } else {
      FlushEnds(text, window, w, Where(w, t));
    }
  }

  lemma FlushGoesOn(text: TextCodec, window: seq<Option<KvsMap>>, w: World, w': World, p: Position, p': Position)
    requires UnderWay(text, window, w, p) && (p'.HashMoved? ==> p'.n > 0)
    requires w'.memory == w.memory && w'.flushed == w.flushed && w'.base == w.base
    requires Finish(text, w'.files, p', w.memory) == Finish(text, w.files, p, w.memory)
    ensures UnderWay(text, window, w', p')
  {
  }

  lemma FlushEnds(text: TextCodec, window: seq<Option<KvsMap>>, w: World, p: Position)
    requires text.RoundTrips() && text.PrintsFinite() && window != [] && UnderWay(text, window, w, p)
    ensures Represents(text, Finish(text, w.files, p, w.memory), Row(window, w.flushed))
  {
    var order: nat :| Finish(text, w.files, p, w.memory) == Flushed(text, w.base, |window|, w.memory, order);
    RowGrows(text, window, w, order);
  }

  lemma StepNearerToFinish(text: TextCodec, files: Files, p: Position, memory: KvsMap)
    requires InFlush(p) && (p.HashMoved? ==> p.n > 0)
    ensures var (files', p') := FlushStep(text, files, p, memory);
            && Finish(text, files', p', memory) == Finish(text, files, p, memory)
            && (p'.HashMoved? ==> p'.n > 0)
            && (!InFlush(p') ==> Finish(text, files', p', memory) == files')
  {
  }

  lemma RowGrows(text: TextCodec, window: seq<Option<KvsMap>>, w: World, order: nat)
    requires text.RoundTrips() && text.PrintsFinite() && window != [] && w.flushed != []
    requires w.memory == w.flushed[|w.flushed| - 1]
    requires Represents(text, w.base, Row(window, w.flushed[..|w.flushed| - 1]))
    ensures Represents(text, Flushed(text, w.base, |window|, w.memory, order), Row(window, w.flushed))
  {
    var earlier := w.flushed[..|w.flushed| - 1];
    FlushKeepsRepresentation(text, w.base, Row(window, earlier), w.memory, order);
    assert w.flushed == earlier + [w.memory];
    EntriesOneMore(earlier, w.memory);
    AdvanceAllOneMore(window, 0, Entries(earlier), Entry(w.memory));
  }

  lemma {:induction false} ReachableKeepsInv(text: TextCodec, window: seq<Option<KvsMap>>, start: World,
                                             events: seq<Event>, w: World)
    requires text.RoundTrips() && text.PrintsFinite() && window != []
    requires Inv(text, window, start) && Reachable(text, |window|, start, events, w)
    ensures Inv(text, window, w)
    decreases |events|
  {
    if events != [] {
      var n := |events| - 1;
      var v :| Reachable(text, |window|, start, events[..n], v) && Enabled(v, events[n])
               && w == Next(text, |window|, v, events[n]);
      ReachableKeepsInv(text, window, start, events[..n], v);
      NextKeepsInv(text, window, v, events[n]);
    }
  }

  /** Whatever the interleaving: whenever the lock is free the files stand for the initial row
      advanced by the maps that were in memory at the flushes' lock acquisitions, in lock order; and
      while a flush runs the memory is the map it found when it got the lock. */
  lemma FlushesAreAtomic(text: TextCodec, window: seq<Option<KvsMap>>, start: World, events: seq<Event>, w: World)
    requires text.RoundTrips() && text.PrintsFinite() && window != []
    requires start.owner.None? && start.at == map[] && start.flushed == []
    requires Represents(text, start.files, window)
    requires Reachable(text, |window|, start, events, w)
    ensures w.owner.None? ==> Represents(text, w.files, AdvanceAll(window, 0, Entries(w.flushed)))
    ensures forall t: Thread :: InFlush(Where(w, t)) ==> w.flushed != [] && w.memory == w.flushed[|w.flushed| - 1]
  {
    assert Entries([]) == [] && Row(window, start.flushed) == window;
    ReachableKeepsInv(text, window, start, events, w);
  }

  /** The lock excludes: two threads are never both inside. */
  lemma OneThreadInside(text: TextCodec, window: seq<Option<KvsMap>>, start: World, events: seq<Event>, w: World,
                        t: Thread, u: Thread)
    requires text.RoundTrips() && text.PrintsFinite() && window != []
    requires start.owner.None? && start.at == map[] && start.flushed == []
    requires Represents(text, start.files, window)
    requires Reachable(text, |window|, start, events, w)
    ensures !Where(w, t).Idle? && !Where(w, u).Idle? ==> t == u
  {
    assert Entries([]) == [] && Row(window, start.flushed) == window;
    ReachableKeepsInv(text, window, start, events, w);
  }
}
