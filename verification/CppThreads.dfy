/** Threads that share one C++ store. A flush takes the lock twice: once to convert the map, once to
    rotate; it writes the new snapshot without the lock. Rotation goes rename by rename, so another
    flush can write between two renames. */
module CppThreads {
  import opened Values
  import opened Storage
  import opened Timeline
  import opened Adler32
  import opened JsonCodec
  import opened CppCodec
  import opened CppStore
  import TextForm

  type Thread = nat

  /** The map that the first lock found, and its text. */
  datatype Prepared = Prepared(taken: KvsMap, text: Bytes)

  /** A flush that rotates or writes, with `done` of its file changes made: 2 * max renames, a missing
      source counted, then the two writes. */
  datatype Flight = Flight(snapshot: Prepared, done: nat)

  datatype World = World(
    memory: KvsMap,
    files: Files,
    prepared: map<Thread, Prepared>,     // converted and printed, not yet rotating
    rotating: Option<(Thread, Flight)>,  // holds the lock
    writing: map<Thread, Flight>,        // lock given back, hash file not yet written
    rotated: seq<KvsMap>)                // record: the maps of all flushes, in order of rotation

  datatype Event =
    | Change(newMap: KvsMap)
    | Prepare(t: Thread, order: nat)
    | Refuse(t: Thread)
    | BeginRotation(t: Thread)
    | RenameNext
    | WriteNext(t: Thread)

  /** The i-th file change of a flush. */
  function StepAt(max: nat, i: nat, text: Bytes): Step
    requires i < 2 * max + 2
  {
    if i < 2 * max then
      var n, kind := max - i / 2, if i % 2 == 0 then Hash else Json;
      Rename(File(n - 1, kind), File(n, kind))
    else if i == 2 * max then Write(File(0, Json), text)
    else Write(File(0, Hash), HashBytes(Checksum(text)))
  }

  function Forward(max: nat, files: Files, f: Flight): (Files, Flight)
    requires f.done < 2 * max + 2
  {
    (Apply(files, StepAt(max, f.done, f.snapshot.text)), f.(done := f.done + 1))
  }

  predicate Busy(w: World, t: Thread) {
    t in w.prepared || t in w.writing || (w.rotating.Some? && w.rotating.value.0 == t)
  }

  /** Every attempt to take the lock is a try. While a rotation holds the lock the others fail; and the
      second attempt of a flush can fail at any time, since a thread that reads or changes the map also
      holds the lock for a moment. */
  predicate Enabled(max: nat, w: World, e: Event) {
    match e
    case Change(_) => w.rotating.None?
    case Prepare(t, _) => w.rotating.None? && !Busy(w, t)
    case Refuse(t) => t in w.prepared
    case BeginRotation(t) => w.rotating.None? && t in w.prepared
    case RenameNext => w.rotating.Some? && w.rotating.value.1.done < 2 * max
    case WriteNext(t) => t in w.writing && w.writing[t].done < 2 * max + 2
  }

  function Next(text: TextCodec, max: nat, w: World, e: Event): World
    requires Enabled(max, w, e)
  {
    match e
    case Change(m) => w.(memory := m)
    case Prepare(t, order) =>
      (match text.render(CppRoot(w.memory), order)
       case None => w
       case Some(x) => w.(prepared := w.prepared[t := Prepared(w.memory, x)]))
    case Refuse(t) => w.(prepared := w.prepared - {t})
    case BeginRotation(t) =>
      w.(prepared := w.prepared - {t}, rotating := Some((t, Flight(w.prepared[t], 0))),
         rotated := w.rotated + [w.prepared[t].taken])
    case RenameNext =>
      var (t, f) := w.rotating.value;
      var (files, f') := Forward(max, w.files, f);
      if f'.done < 2 * max then w.(files := files, rotating := Some((t, f')))
      else w.(files := files, rotating := None, writing := w.writing[t := f'])
    case WriteNext(t) =>
      var (files, f') := Forward(max, w.files, w.writing[t]);
      if f'.done < 2 * max + 2 then w.(files := files, writing := w.writing[t := f'])
      else w.(files := files, writing := w.writing - {t})
  }

  /** No flush has touched the files without finishing. */
  predicate Quiet(w: World) {
    w.rotating.None? && w.writing == map[]
  }

  ghost predicate IsRun(text: TextCodec, max: nat, ws: seq<World>, es: seq<Event>) {
    && |ws| == |es| + 1 && Quiet(ws[0]) && ws[0].prepared == map[] && ws[0].rotated == []
    && forall i: nat :: i < |es| ==> IsStep(text, max, ws[i], es[i], ws[i + 1])
  }

  predicate IsStep(text: TextCodec, max: nat, w: World, e: Event, w': World) {
    Enabled(max, w, e) && w' == Next(text, max, w, e)
  }

  /** The event moves slot 0's hash file up, and with it, next, the json file. */
  predicate TakesSlotZero(max: nat, w: World, e: Event) {
    e.RenameNext? && w.rotating.Some? && w.rotating.value.1.done + 2 == 2 * max
  }

  /** Event i takes slot 0 while another flush is between its rotation and its hash write. */
  predicate Overlaps(max: nat, ws: seq<World>, es: seq<Event>, i: nat)
    requires |es| < |ws|
  {
    i < |es| && TakesSlotZero(max, ws[i], es[i]) && ws[i].writing != map[]
  }

  ghost predicate NoOverlap(max: nat, ws: seq<World>, es: seq<Event>, n: nat)
    requires n <= |es| < |ws|
  {
    forall i: nat :: i < n ==> !Overlaps(max, ws, es, i)
  }

  lemma StepOf(text: TextCodec, max: nat, ws: seq<World>, es: seq<Event>, i: nat)
    requires IsRun(text, max, ws, es) && i < |es|
    ensures Enabled(max, ws[i], es[i]) && ws[i + 1] == Next(text, max, ws[i], es[i])
    ensures |ws[i].rotated| <= |ws[i + 1].rotated|
  {
    assert IsStep(text, max, ws[i], es[i], ws[i + 1]);
  }

  // ---------- A flush run to its end

  function Finish(max: nat, files: Files, f: Flight): Files
    decreases 2 * max + 2 - f.done
  {
    if f.done < 2 * max + 2 then
      var (files', f') := Forward(max, files, f);
      Finish(max, files', f')
    else files
  }

  lemma {:induction false} FinishIsFlush(max: nat, files: Files, p: Prepared, n: nat)
    requires n <= max
    ensures Finish(max, files, Flight(p, 2 * (max - n))) == Run(files, CppRotateSteps(files, n) + CppSaveSteps(p.text))
    decreases n
  {
    if n == 0 {
      FinishWithoutRotation(max, files, p);
    } else {
      FinishIsFlush(max, Run(files, CppRound(files, n)), p, n - 1);
      FinishRound(max, files, Flight(p, 2 * (max - n)), n);
      StepsOfRound(files, n, CppSaveSteps(p.text));
    }
  }

  lemma FinishWithoutRotation(max: nat, files: Files, p: Prepared)
    ensures Finish(max, files, Flight(p, 2 * max)) == Run(files, CppRotateSteps(files, 0) + CppSaveSteps(p.text))
  {
    FinishIsSave(max, files, Flight(p, 2 * max));
    assert [] + CppSaveSteps(p.text) == CppSaveSteps(p.text);
  }

  lemma FinishRound(max: nat, files: Files, f: Flight, n: nat)
    requires 0 < n <= max && f.done == 2 * (max - n)
    ensures Finish(max, files, f) == Finish(max, Run(files, CppRound(files, n)), f.(done := 2 * (max - (n - 1))))
  {
    RoundIsTwoRenames(files, n);
    FinishTwo(max, files, f);
  }

  lemma StepsOfRound(files: Files, n: nat, save: seq<Step>)
    requires n > 0
    ensures var next := Run(files, CppRound(files, n));
            Run(files, CppRotateSteps(files, n) + save) == Run(next, CppRotateSteps(next, n - 1) + save)
  {
    var round := CppRound(files, n);
    var rest := CppRotateSteps(Run(files, round), n - 1);
    assert (round + rest) + save == round + (rest + save);
    RunConcat(files, round, rest + save);
  }

  lemma FinishIsSave(max: nat, files: Files, f: Flight)
    requires f.done == 2 * max
    ensures Finish(max, files, f) == Run(files, CppSaveSteps(f.snapshot.text))
  {
    var save := CppSaveSteps(f.snapshot.text);
    RunTwo(files, save[0], save[1]);
    FinishTwo(max, files, f);
  }

  lemma FinishTwo(max: nat, files: Files, f: Flight)
    requires f.done + 1 < 2 * max + 2
    ensures var once := Apply(files, StepAt(max, f.done, f.snapshot.text));
            var twice := Apply(once, StepAt(max, f.done + 1, f.snapshot.text));
            Finish(max, files, f) == Finish(max, twice, f.(done := f.done + 2))
  {
    var (once, g) := Forward(max, files, f);
    assert Finish(max, files, f) == Finish(max, once, g);
  }

  lemma RoundIsTwoRenames(files: Files, n: nat)
    requires n > 0
    ensures Run(files, CppRound(files, n))
            == Apply(Apply(files, Rename(File(n - 1, Hash), File(n, Hash))), Rename(File(n - 1, Json), File(n, Json)))
  {
    var hashMoved := Apply(files, Rename(File(n - 1, Hash), File(n, Hash)));
    assert File(n - 1, Json) in hashMoved <==> File(n - 1, Json) in files;
    RunConcat(files, MoveFile(files, Hash, n), MoveFile(files, Json, n));
    if File(n - 1, Hash) in files { RunOne(files, MoveFile(files, Hash, n)[0]); }
    if File(n - 1, Json) in files { RunOne(hashMoved, MoveFile(files, Json, n)[0]); }
  }

  // ---------- Flushes that do not overlap

  function Row(window: seq<Option<KvsMap>>, rotated: seq<KvsMap>): (r: seq<Option<KvsMap>>)
    ensures |r| == |window|
  {
    AdvanceAll(window, 0, Present(rotated))
  }

  /** The files once the flushes that write have finished. */
  ghost function AfterWrites(max: nat, files: Files, writing: map<Thread, Flight>): Files {
    if writing == map[] then files
    else
      var t :| t in writing;
      Finish(max, files, writing[t])
  }

  ghost predicate AtMostOne(writing: map<Thread, Flight>) {
    forall t, u | t in writing && u in writing :: t == u
  }

  lemma AfterTheWriter(max: nat, files: Files, writing: map<Thread, Flight>, t: Thread)
    requires AtMostOne(writing) && t in writing
    ensures AfterWrites(max, files, writing) == Finish(max, files, writing[t])
  {
  }

  /** The files once every flush that has begun to rotate has finished: first the one that writes,
      then the one that rotates. */
  ghost function AfterAll(max: nat, w: World): Files {
    var files := AfterWrites(max, w.files, w.writing);
    if w.rotating.Some? then Finish(max, files, w.rotating.value.1) else files
  }

  /** At most one flush writes while another rotates, and none once the rotation has reached slot 0;
      finished in this order, they leave files that stand for the row advanced by all maps. */
  ghost predicate Inv(text: TextCodec, max: nat, window: seq<Option<KvsMap>>, w: World) {
    && (forall t | t in w.prepared :: CppTextStandsFor(text, w.prepared[t].text, w.prepared[t].taken))
    && OneWriter(max, w)
    && CppRepresents(text, AfterAll(max, w), max, Row(window, w.rotated))
  }

  ghost predicate OneWriter(max: nat, w: World) {
    && (forall t | t in w.writing :: 2 * max <= w.writing[t].done < 2 * max + 2)
    && AtMostOne(w.writing)
    && (w.rotating.Some? ==>
          var f := w.rotating.value.1;
          f.done < 2 * max && (f.done + 2 > 2 * max ==> w.writing == map[]))
  }

  /** A rename above slot 0 and a write to slot 0 do not touch the same file. */
  lemma RenameCommutes(files: Files, src: File, dst: File, f: File, data: Bytes)
    requires f != src && f != dst
    ensures Apply(Apply(files, Write(f, data)), Rename(src, dst))
            == Apply(Apply(files, Rename(src, dst)), Write(f, data))
  {
  }

  lemma {:induction false} RenameBeforeWrites(max: nat, files: Files, f: Flight, src: File, dst: File)
    requires 2 * max <= f.done && src.slot > 0 && dst.slot > 0
    ensures Finish(max, Apply(files, Rename(src, dst)), f) == Apply(Finish(max, files, f), Rename(src, dst))
    decreases 2 * max + 2 - f.done
  {
    if f.done < 2 * max + 2 {
      var step := StepAt(max, f.done, f.snapshot.text);
      RenameCommutes(files, src, dst, step.file, step.data);
      RenameBeforeWrites(max, Apply(files, step), f.(done := f.done + 1), src, dst);
    }
  }

  lemma RenameKeepsAfterAll(text: TextCodec, max: nat, w: World)
    requires OneWriter(max, w) && Enabled(max, w, RenameNext)
    requires TakesSlotZero(max, w, RenameNext) ==> w.writing == map[]
    ensures AfterAll(max, Next(text, max, w, RenameNext)) == AfterAll(max, w)
    ensures w.rotating.value.1.done + 1 == 2 * max ==> w.writing == map[]
  {
    var (t, f) := w.rotating.value;
    var w' := Next(text, max, w, RenameNext);
    var step := StepAt(max, f.done, f.snapshot.text);
    if u :| u in w.writing {
      assert f.done + 2 < 2 * max;
      AfterTheWriter(max, w.files, w.writing, u);
      AfterTheWriter(max, w'.files, w.writing, u);
      RenameBeforeWrites(max, w.files, w.writing[u], step.src, step.dst);
    } else if f.done + 1 == 2 * max {
      AfterTheWriter(max, w'.files, w'.writing, t);
    }
  }

  lemma WriteKeepsAfterAll(text: TextCodec, max: nat, w: World, t: Thread)
    requires OneWriter(max, w) && Enabled(max, w, WriteNext(t))
    ensures AfterAll(max, Next(text, max, w, WriteNext(t))) == AfterAll(max, w)
  {
    var w' := Next(text, max, w, WriteNext(t));
    AfterTheWriter(max, w.files, w.writing, t);
    if t in w'.writing {
      AfterTheWriter(max, w'.files, w'.writing, t);
    } else {
      assert w'.writing == map[];
    }
  }

  lemma BeginKeepsInv(text: TextCodec, max: nat, window: seq<Option<KvsMap>>, w: World, t: Thread)
    requires max > 0 && Inv(text, max, window, w) && Enabled(max, w, BeginRotation(t))
    ensures Inv(text, max, window, Next(text, max, w, BeginRotation(t)))
  {
    var p, files := w.prepared[t], AfterAll(max, w);
    FinishIsFlush(max, files, p, max);
    CppFlushKeepsRepresentation(text, files, max, Row(window, w.rotated), p.taken, p.text);
    AdvanceAllOneMore(window, 0, Present(w.rotated), Some(p.taken));
    assert Present(w.rotated + [p.taken]) == Present(w.rotated) + [Some(p.taken)];
  }

  lemma RenameKeepsInv(text: TextCodec, max: nat, window: seq<Option<KvsMap>>, w: World)
    requires Inv(text, max, window, w) && Enabled(max, w, RenameNext)
    requires TakesSlotZero(max, w, RenameNext) ==> w.writing == map[]
    ensures Inv(text, max, window, Next(text, max, w, RenameNext))
  {
    RenameKeepsAfterAll(text, max, w);
  }

  lemma WriteKeepsInv(text: TextCodec, max: nat, window: seq<Option<KvsMap>>, w: World, t: Thread)
    requires Inv(text, max, window, w) && Enabled(max, w, WriteNext(t))
    ensures Inv(text, max, window, Next(text, max, w, WriteNext(t)))
  {
    WriteKeepsAfterAll(text, max, w, t);
    WriteKeepsOneWriter(text, max, w, t);
  }

  lemma WriteKeepsOneWriter(text: TextCodec, max: nat, w: World, t: Thread)
    requires OneWriter(max, w) && Enabled(max, w, WriteNext(t))
    ensures OneWriter(max, Next(text, max, w, WriteNext(t)))
  {
  }

  lemma LockKeepsInv(text: TextCodec, max: nat, window: seq<Option<KvsMap>>, w: World, e: Event)
    requires text.RoundTrips() && Inv(text, max, window, w) && Enabled(max, w, e)
    requires e.Change? || e.Prepare? || e.Refuse?
    ensures Inv(text, max, window, Next(text, max, w, e))
  {
  }

  lemma NextKeepsInv(text: TextCodec, max: nat, window: seq<Option<KvsMap>>, w: World, e: Event)
    requires text.RoundTrips() && max > 0 && Inv(text, max, window, w) && Enabled(max, w, e)
    requires TakesSlotZero(max, w, e) ==> w.writing == map[]
    ensures Inv(text, max, window, Next(text, max, w, e))
  {
    match e
    case BeginRotation(t) => BeginKeepsInv(text, max, window, w, t);
    case RenameNext => RenameKeepsInv(text, max, window, w);
    case WriteNext(t) => WriteKeepsInv(text, max, window, w, t);
    case _ => LockKeepsInv(text, max, window, w, e);
  }

  lemma {:induction false} RunKeepsInv(text: TextCodec, max: nat, window: seq<Option<KvsMap>>,
                                       ws: seq<World>, es: seq<Event>, n: nat)
    requires text.RoundTrips() && max > 0 && IsRun(text, max, ws, es) && n <= |es|
    requires CppRepresents(text, ws[0].files, max, window) && NoOverlap(max, ws, es, n)
    ensures Inv(text, max, window, ws[n])
  {
    if n == 0 {
      assert Present<KvsMap>([]) == [];
    } else {
      RunKeepsInv(text, max, window, ws, es, n - 1);
      StepOf(text, max, ws, es, n - 1);
      assert !Overlaps(max, ws, es, n - 1);
      NextKeepsInv(text, max, window, ws[n - 1], es[n - 1]);
    }
  }

  /** Any number of flushes by any threads, with any other changes of the map: if none takes slot 0
      while another still writes, then whenever no flush is under way the files stand for the row
      advanced by all their maps, in the order of rotation. */
  lemma FlushesApartKeepHistory(text: TextCodec, max: nat, window: seq<Option<KvsMap>>,
                                ws: seq<World>, es: seq<Event>, n: nat)
    requires text.RoundTrips() && max > 0 && IsRun(text, max, ws, es) && n <= |es|
    requires CppRepresents(text, ws[0].files, max, window) && NoOverlap(max, ws, es, n)
    ensures Quiet(ws[n]) ==> CppRepresents(text, ws[n].files, max, AdvanceAll(window, 0, Present(ws[n].rotated)))
  {
    RunKeepsInv(text, max, window, ws, es, n);
  }

  // ---------- Two flushes, exactly

  /** Before the second flush takes slot 0: a first flush that writes has left slot 0 without a hash
      file, and the second rotation empties slot 1 before it gets to slot 0. */
  ghost predicate Early(max: nat, w: World) {
    && AtMostOne(w.writing)
    && (forall t | t in w.writing :: 2 * max <= w.writing[t].done < 2 * max + 2)
    && (w.writing != map[] ==> |w.rotated| > 0 && File(0, Hash) !in w.files)
    && match w.rotating
       case None => |w.rotated| < 2
       case Some((_, f)) =>
         || (|w.rotated| == 1 && w.writing == map[] && (f.done + 2 > 2 * max ==> File(0, Hash) !in w.files))
         || (|w.rotated| == 2 && f.done + 2 <= 2 * max && (f.done + 4 > 2 * max ==> File(1, Hash) !in w.files))
  }

  /** The second flush has taken slot 0, or finished. */
  predicate Late(max: nat, w: World) {
    && |w.rotated| == 2
    && (w.rotating.Some? ==> w.rotating.value.1.done + 2 > 2 * max)
    && forall t | t in w.writing :: w.writing[t].done >= 2 * max
  }

  lemma EarlyGoesOn(text: TextCodec, max: nat, w: World, e: Event)
    requires max >= 2 && Early(max, w) && Enabled(max, w, e) && |Next(text, max, w, e).rotated| <= 2
    ensures Early(max, Next(text, max, w, e)) || Late(max, Next(text, max, w, e))
    ensures TakesSlotZero(max, w, e) && w.writing != map[] ==>
              Late(max, Next(text, max, w, e)) && File(1, Hash) !in Next(text, max, w, e).files
  {
    match e
    case RenameNext => EarlyRename(text, max, w);
    case WriteNext(t) => EarlyWrite(text, max, w, t);
    case _ => EarlyLock(text, max, w, e);
  }

  lemma EarlyWrite(text: TextCodec, max: nat, w: World, t: Thread)
    requires max >= 2 && Early(max, w) && Enabled(max, w, WriteNext(t))
    ensures Early(max, Next(text, max, w, WriteNext(t)))
  {
  }

  lemma EarlyLock(text: TextCodec, max: nat, w: World, e: Event)
    requires max >= 2 && Early(max, w) && Enabled(max, w, e) && |Next(text, max, w, e).rotated| <= 2
    requires !e.RenameNext? && !e.WriteNext?
    ensures Early(max, Next(text, max, w, e))
  {
  }

  lemma EarlyRename(text: TextCodec, max: nat, w: World)
    requires max >= 2 && Early(max, w) && Enabled(max, w, RenameNext)
    ensures var w' := Next(text, max, w, RenameNext);
            && (Early(max, w') || Late(max, w'))
            && (TakesSlotZero(max, w, RenameNext) && w.writing != map[] ==> Late(max, w') && File(1, Hash) !in w'.files)
  {
  }

  lemma LateGoesOn(text: TextCodec, max: nat, w: World, e: Event)
    requires max >= 2 && Late(max, w) && Enabled(max, w, e) && |Next(text, max, w, e).rotated| <= 2
    ensures Late(max, Next(text, max, w, e)) && !TakesSlotZero(max, w, e)
    ensures File(1, Hash) !in w.files ==> File(1, Hash) !in Next(text, max, w, e).files
  {
  }

  lemma EitherGoesOn(text: TextCodec, max: nat, w: World, e: Event)
    requires max >= 2 && Enabled(max, w, e) && |Next(text, max, w, e).rotated| <= 2
    requires Early(max, w) || Late(max, w)
    ensures Early(max, Next(text, max, w, e)) || Late(max, Next(text, max, w, e))
    ensures TakesSlotZero(max, w, e) && w.writing != map[] ==>
              Late(max, Next(text, max, w, e)) && File(1, Hash) !in Next(text, max, w, e).files
  {
    if Early(max, w) {
      EarlyGoesOn(text, max, w, e);
    } else {
      LateGoesOn(text, max, w, e);
    }
  }

  lemma {:induction false} EarlyOrLate(text: TextCodec, max: nat, ws: seq<World>, es: seq<Event>, n: nat)
    requires max >= 2 && IsRun(text, max, ws, es) && n <= |es| && |ws[n].rotated| <= 2
    ensures Early(max, ws[n]) || Late(max, ws[n])
    decreases n
  {
    if n > 0 {
      StepOf(text, max, ws, es, n - 1);
      EarlyOrLate(text, max, ws, es, n - 1);
      EitherGoesOn(text, max, ws[n - 1], es[n - 1]);
    }
  }

  /** The second flush has lost the first: it has taken slot 0 and found no hash file for slot 1. */
  predicate Lost(max: nat, w: World) {
    Late(max, w) && File(1, Hash) !in w.files
  }

  lemma OverlapLoses(text: TextCodec, max: nat, ws: seq<World>, es: seq<Event>, i: nat)
    requires max >= 2 && IsRun(text, max, ws, es) && Overlaps(max, ws, es, i) && |ws[i + 1].rotated| <= 2
    ensures Lost(max, ws[i + 1])
  {
    StepOf(text, max, ws, es, i);
    EarlyOrLate(text, max, ws, es, i);
    EitherGoesOn(text, max, ws[i], es[i]);
  }

  lemma {:induction false} LostStaysLost(text: TextCodec, max: nat, ws: seq<World>, es: seq<Event>, i: nat, n: nat)
    requires max >= 2 && IsRun(text, max, ws, es) && i <= n <= |es| && |ws[n].rotated| <= 2
    requires Lost(max, ws[i])
    ensures Lost(max, ws[n])
    decreases n - i
  {
    if i < n {
      RotatedGrows(text, max, ws, es, i + 1, n);
      assert IsStep(text, max, ws[i], es[i], ws[i + 1]);
      LostGoesOn(text, max, ws[i], es[i], ws[i + 1]);
      LostStaysLost(text, max, ws, es, i + 1, n);
    }
  }

  lemma LostGoesOn(text: TextCodec, max: nat, w: World, e: Event, w': World)
    requires max >= 2 && Lost(max, w) && IsStep(text, max, w, e, w') && |w'.rotated| <= 2
    ensures Lost(max, w')
  {
    LateGoesOn(text, max, w, e);
  }

  lemma {:induction false} RotatedGrows(text: TextCodec, max: nat, ws: seq<World>, es: seq<Event>, i: nat, n: nat)
    requires IsRun(text, max, ws, es) && i <= n <= |es|
    ensures |ws[i].rotated| <= |ws[n].rotated|
    decreases n
  {
    if i < n {
      StepOf(text, max, ws, es, n - 1);
      RotatedGrows(text, max, ws, es, i, n - 1);
    }
  }

  lemma OverlapEndsLost(text: TextCodec, max: nat, ws: seq<World>, es: seq<Event>, i: nat)
    requires max >= 2 && IsRun(text, max, ws, es) && Overlaps(max, ws, es, i) && |ws[|es|].rotated| <= 2
    ensures Lost(max, ws[|es|])
  {
    RotatedGrows(text, max, ws, es, i + 1, |es|);
    OverlapLoses(text, max, ws, es, i);
    LostStaysLost(text, max, ws, es, i + 1, |es|);
  }

  lemma OneFlushNeverOverlaps(text: TextCodec, max: nat, ws: seq<World>, es: seq<Event>)
    requires max >= 2 && IsRun(text, max, ws, es) && |ws[|es|].rotated| <= 1
    ensures NoOverlap(max, ws, es, |es|)
  {
    if i: nat :| Overlaps(max, ws, es, i) {
      OverlapEndsLost(text, max, ws, es, i);
    }
  }

  /** The exact condition for two flushes, whatever else changes the map meanwhile: once both are done
      the files stand for the row advanced by both maps if and only if neither took slot 0 between the
      other's rotation and its hash write. Otherwise slot 1 does not open. */
  lemma TwoFlushesKeptIffApart(text: TextCodec, max: nat, window: seq<Option<KvsMap>>, ws: seq<World>, es: seq<Event>)
    requires text.RoundTrips() && max >= 2 && IsRun(text, max, ws, es)
    requires CppRepresents(text, ws[0].files, max, window)
    requires Quiet(ws[|es|]) && |ws[|es|].rotated| == 2
    ensures var w := ws[|es|];
            && (CppRepresents(text, w.files, max, AdvanceAll(window, 0, Present(w.rotated))) <==>
                NoOverlap(max, ws, es, |es|))
            && (!NoOverlap(max, ws, es, |es|) ==>
                  File(1, Hash) !in w.files && OpenJson(text, w.files, 1, Required).Err?)
  {
    var w := ws[|es|];
    if NoOverlap(max, ws, es, |es|) {
      FlushesApartKeepHistory(text, max, window, ws, es, |es|);
    } else {
      var i: nat :| i < |es| && Overlaps(max, ws, es, i);
      OverlapEndsLost(text, max, ws, es, i);
      var row := AdvanceAll(window, 0, Present(w.rotated));
      LatestPushesStand(window, w.rotated, row);
      assert !CppSlotHolds(text, w.files, 1, row[1]);
    }
  }

  // ---------- A run with overlap

  lemma ExtendRun(text: TextCodec, max: nat, ws: seq<World>, es: seq<Event>, e: Event)
    returns (ws': seq<World>, es': seq<Event>)
    requires IsRun(text, max, ws, es) && Enabled(max, ws[|es|], e)
    ensures IsRun(text, max, ws', es') && es' == es + [e]
    ensures ws <= ws' && ws'[|es'|] == Next(text, max, ws[|es|], e)
  {
    ws', es' := ws + [Next(text, max, ws[|es|], e)], es + [e];
    forall i: nat | i < |es'| ensures IsStep(text, max, ws'[i], es'[i], ws'[i + 1]) {
      if i < |es| {
        assert IsStep(text, max, ws[i], es[i], ws[i + 1]);
      }
    }
  }

  /** Renames of the flush that holds the lock, up to its last but one. */
  lemma {:induction false} ExtendByRenames(text: TextCodec, max: nat, ws: seq<World>, es: seq<Event>, count: nat)
    returns (ws': seq<World>, es': seq<Event>)
    requires IsRun(text, max, ws, es) && ws[|es|].rotating.Some?
    requires ws[|es|].rotating.value.1.done + count < 2 * max
    ensures IsRun(text, max, ws', es') && es <= es' && ws <= ws'
    ensures var w, w' := ws[|es|], ws'[|es'|]; var (t, f) := w.rotating.value;
            && w'.rotating == Some((t, f.(done := f.done + count)))
            && w'.writing == w.writing && w'.prepared == w.prepared && w'.rotated == w.rotated
    decreases count
  {
    ws', es' := ws, es;
    if count > 0 {
      ws', es' := ExtendRun(text, max, ws, es, RenameNext);
      ws', es' := ExtendByRenames(text, max, ws', es', count - 1);
    }
  }

  /** A store with an empty map on an empty directory, and two threads that are about to rotate. */
  lemma TwoPrepared(text: TextCodec, max: nat) returns (ws: seq<World>, es: seq<Event>)
    requires text.RoundTrips() && text.PrintsFinite()
    ensures IsRun(text, max, ws, es) && ws[0].files == map[]
    ensures var w := ws[|es|]; Quiet(w) && w.rotated == [] && w.prepared.Keys == {1, 2}
  {
    assert AllFinite(CppRoot(map[]));
    ws, es := [World(map[], map[], map[], None, map[], [])], [];
    ws, es := ExtendRun(text, max, ws, es, Prepare(1, 0));
    ws, es := ExtendRun(text, max, ws, es, Prepare(2, 0));
  }

  /** The first flush gives the lock back after its rotation, and before it writes the second one
      rotates down to slot 0. */
  lemma OverlapBegins(text: TextCodec, max: nat) returns (ws: seq<World>, es: seq<Event>)
    requires text.RoundTrips() && text.PrintsFinite() && max >= 2
    ensures IsRun(text, max, ws, es) && ws[0].files == map[] && es != []
    ensures Overlaps(max, ws, es, |es| - 1)
    ensures var w := ws[|es|];
            && w.rotating.Some? && w.rotating.value.0 == 2 && w.rotating.value.1.done == 2 * max - 1
            && w.writing.Keys == {1} && w.writing[1].done == 2 * max && |w.rotated| == 2
  {
    ws, es := TwoPrepared(text, max);
    ws, es := ExtendRun(text, max, ws, es, BeginRotation(1));
    ws, es := ExtendByRenames(text, max, ws, es, 2 * max - 1);
    ws, es := ExtendRun(text, max, ws, es, RenameNext);
    ws, es := ExtendRun(text, max, ws, es, BeginRotation(2));
    ws, es := ExtendByRenames(text, max, ws, es, 2 * max - 2);
    ws, es := ExtendRun(text, max, ws, es, RenameNext);
  }

  /** Both writes of a flush. */
  lemma ExtendByWrites(text: TextCodec, max: nat, ws: seq<World>, es: seq<Event>, t: Thread)
    returns (ws': seq<World>, es': seq<Event>)
    requires IsRun(text, max, ws, es) && t in ws[|es|].writing && ws[|es|].writing[t].done == 2 * max
    ensures IsRun(text, max, ws', es') && es <= es' && ws <= ws'
    ensures var w, w' := ws[|es|], ws'[|es'|];
            w'.rotating == w.rotating && w'.rotated == w.rotated && w'.writing == w.writing - {t}
  {
    ws', es' := ExtendRun(text, max, ws, es, WriteNext(t));
    ws', es' := ExtendRun(text, max, ws', es', WriteNext(t));
  }

  /** Overlaps happen, and both flushes end: the files then do not stand for the two maps. */
  lemma OverlapHappens(max: nat) returns (text: TextCodec, ws: seq<World>, es: seq<Event>)
    requires max >= 2
    ensures text.RoundTrips() && IsRun(text, max, ws, es) && ws[0].files == map[]
    ensures var w := ws[|es|];
            && Quiet(w) && |w.rotated| == 2
            && !CppRepresents(text, w.files, max, AdvanceAll(Absent(max + 1), 0, Present(w.rotated)))
  {
    text := TextForm.AssumptionsCanBeMet();
    ws, es := OverlapBegins(text, max);
    ghost var ws0, es0 := ws, es;
    ws, es := ExtendRun(text, max, ws, es, RenameNext);
    ws, es := ExtendByWrites(text, max, ws, es, 1);
    ws, es := ExtendByWrites(text, max, ws, es, 2);
    assert Overlaps(max, ws0, es0, |es0| - 1);
    assert Overlaps(max, ws, es, |es0| - 1);
    assert CppRepresents(text, ws[0].files, max, Absent(max + 1));
    TwoFlushesKeptIffApart(text, max, Absent(max + 1), ws, es);
  }

  // ---------- What is written is one moment's map

  /** What the first n events found in memory when they took the first lock of a flush. */
  function TakenMaps(ws: seq<World>, es: seq<Event>, n: nat): seq<KvsMap>
    requires n <= |es| < |ws|
  {
    if n == 0 then []
    else TakenMaps(ws, es, n - 1) + if es[n - 1].Prepare? then [ws[n - 1].memory] else []
  }

  lemma {:induction false} TakenAt(ws: seq<World>, es: seq<Event>, n: nat, m: KvsMap) returns (i: nat)
    requires n <= |es| < |ws| && m in TakenMaps(ws, es, n)
    ensures i < n && es[i].Prepare? && ws[i].memory == m
  {
    if m in TakenMaps(ws, es, n - 1) {
      i := TakenAt(ws, es, n - 1, m);
    } else {
      i := n - 1;
    }
  }

  ghost predicate AllFrom(w: World, taken: seq<KvsMap>) {
    && (forall t | t in w.prepared :: w.prepared[t].taken in taken)
    && forall m | m in w.rotated :: m in taken
  }

  lemma NextIsFrom(text: TextCodec, max: nat, w: World, e: Event, taken: seq<KvsMap>)
    requires Enabled(max, w, e) && AllFrom(w, taken)
    ensures AllFrom(Next(text, max, w, e), taken + if e.Prepare? then [w.memory] else [])
  {
  }

  lemma {:induction false} RotatedMapsWereTaken(text: TextCodec, max: nat, ws: seq<World>, es: seq<Event>, n: nat)
    requires IsRun(text, max, ws, es) && n <= |es|
    ensures AllFrom(ws[n], TakenMaps(ws, es, n))
  {
    if n > 0 {
      RotatedMapsWereTaken(text, max, ws, es, n - 1);
      StepOf(text, max, ws, es, n - 1);
      NextIsFrom(text, max, ws[n - 1], es[n - 1], TakenMaps(ws, es, n - 1));
    }
  }

  lemma RowAfterOne(window: seq<Option<KvsMap>>, rotated: seq<KvsMap>)
    requires |rotated| == 1
    ensures AdvanceAll(window, 0, Present(rotated)) == Advance(window, 0, Some(rotated[0]))
  {
    AdvanceAllOneMore(window, 0, [], Some(rotated[0]));
    assert Present(rotated) == [] + [Some(rotated[0])];
  }

  /** One flush among any number of threads that change the map: slot 0 gets the map that was in
      memory at the flush's first lock, although the lock was free before and after the rotation. */
  lemma OneFlushIsAtomic(text: TextCodec, max: nat, window: seq<Option<KvsMap>>, ws: seq<World>, es: seq<Event>)
    returns (i: nat)
    requires text.RoundTrips() && max >= 2 && IsRun(text, max, ws, es)
    requires CppRepresents(text, ws[0].files, max, window)
    requires Quiet(ws[|es|]) && |ws[|es|].rotated| == 1
    ensures i < |es| && es[i].Prepare?
    ensures CppRepresents(text, ws[|es|].files, max, Advance(window, 0, Some(ws[i].memory)))
  {
    var w := ws[|es|];
    OneFlushNeverOverlaps(text, max, ws, es);
    FlushesApartKeepHistory(text, max, window, ws, es, |es|);
    RotatedMapsWereTaken(text, max, ws, es, |es|);
    i := TakenAt(ws, es, |es|, w.rotated[0]);
    RowAfterOne(window, w.rotated);
  }
}
