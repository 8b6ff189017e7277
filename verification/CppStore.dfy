/** The C++ key-value store: rotation of two independent file families, a flush that gives up the
    lock between reading the map and touching the files, and restoring. */
module CppStore {
  import opened Values
  import opened Storage
  import opened Timeline
  import opened Adler32
  import opened JsonCodec
  import opened CppCodec

  /** The compiled-in snapshot limit. Nothing below depends on its value; the limit is a parameter
      `max` of the specification functions and a field of the store. Rotation fills the slots
      0..max, one more than the snapshots that are counted. */
  const KVS_MAX_SNAPSHOTS: nat := 3

  // ---------- Rotation

  /** The renames that find their source; each family moves on its own. */
  function MoveFile(files: Files, kind: Kind, n: nat): seq<Step>
    requires n > 0
  {
    if File(n - 1, kind) in files then [Rename(File(n - 1, kind), File(n, kind))] else []
  }

  function CppRound(files: Files, n: nat): seq<Step>
    requires n > 0
  {
    MoveFile(files, Hash, n) + MoveFile(files, Json, n)
  }

  function CppRotateSteps(files: Files, n: nat): seq<Step>
    decreases n
  {
    if n == 0 then [] else CppRound(files, n) + CppRotateSteps(Run(files, CppRound(files, n)), n - 1)
  }

  lemma MoveFileEffect(files: Files, kind: Kind, n: nat)
    requires n > 0
    ensures Column(Run(files, MoveFile(files, kind, n)), kind, n + 1) == Shift(Column(files, kind, n + 1), n - 1)
    ensures forall f: File | f.kind != kind || f.slot > n ::
              Look(Run(files, MoveFile(files, kind, n)), f) == Look(files, f)
  {
  }

  lemma CppRoundEffect(files: Files, n: nat, kind: Kind)
    requires n > 0
    ensures Column(Run(files, CppRound(files, n)), kind, n + 1) == Shift(Column(files, kind, n + 1), n - 1)
    ensures forall f: File | f.slot > n :: Look(Run(files, CppRound(files, n)), f) == Look(files, f)
  {
    var hashMoved := Run(files, MoveFile(files, Hash, n));
    MoveFileEffect(files, Hash, n);
    assert MoveFile(hashMoved, Json, n) == MoveFile(files, Json, n) by {
      assert Look(hashMoved, File(n - 1, Json)) == Look(files, File(n - 1, Json));
    }
    MoveFileEffect(hashMoved, Json, n);
    RunConcat(files, MoveFile(files, Hash, n), MoveFile(files, Json, n));
    var after := Run(files, CppRound(files, n));
    assert after == Run(hashMoved, MoveFile(hashMoved, Json, n));
    assert Column(hashMoved, Json, n + 1) == Column(files, Json, n + 1);
    assert Column(after, Hash, n + 1) == Column(hashMoved, Hash, n + 1);
  }

  function CppRotated(files: Files, n: nat): Files {
    Run(files, CppRotateSteps(files, n))
  }

  ghost predicate FamilyShifted(files: Files, after: Files, kind: Kind, n: nat) {
    && Column(after, kind, n + 1) == Shift(Column(files, kind, n + 1), 0)
    && forall f: File | f.slot > n :: Look(after, f) == Look(files, f)
  }

  /** Rotation shifts each family of files by one over slots 0..n, whatever the other family looks
      like; the last slot keeps its file if nothing moves into it. */
  lemma {:induction false} CppRotationShifts(files: Files, n: nat, kind: Kind)
    ensures FamilyShifted(files, CppRotated(files, n), kind, n)
    decreases n
  {
    if n == 0 {
      assert Shift(Column(files, kind, 1), 0) == Column(files, kind, 1);
    } else {
      var next := Run(files, CppRound(files, n));
      CppRotationShifts(next, n - 1, kind);
      RunConcat(files, CppRound(files, n), CppRotateSteps(next, n - 1));
      RestShifted(files, CppRotated(next, n - 1), n, kind);
    }
  }

  lemma RestShifted(files: Files, after: Files, n: nat, kind: Kind)
    requires n > 0 && FamilyShifted(Run(files, CppRound(files, n)), after, kind, n - 1)
    ensures FamilyShifted(files, after, kind, n)
  {
    var next := Run(files, CppRound(files, n));
    CppRoundEffect(files, n, kind);
    ShiftRestOfRow(files, next, after, n, 0, kind);
  }

  lemma ShiftRestOfRow(files: Files, next: Files, after: Files, n: nat, lo: nat, kind: Kind)
    requires lo < n
    requires Column(next, kind, n + 1) == Shift(Column(files, kind, n + 1), n - 1)
    requires Column(after, kind, n) == Shift(Column(next, kind, n), lo)
    requires Look(after, File(n, kind)) == Look(next, File(n, kind))
    ensures Column(after, kind, n + 1) == Shift(Column(files, kind, n + 1), lo)
  {
    ShiftFromTheTop(Column(files, kind, n + 1), lo);
    assert Column(next, kind, n + 1)[..n] == Column(next, kind, n);
    assert Column(after, kind, n + 1) == Column(after, kind, n) + [Look(after, File(n, kind))];
  }

  // ---------- Flush

  function CppSaveSteps(t: Bytes): seq<Step> {
    [Write(File(0, Json), t), Write(File(0, Hash), HashBytes(Checksum(t)))]
  }

  function CppFlushSteps(files: Files, max: nat, t: Bytes): seq<Step> {
    CppRotateSteps(files, max) + CppSaveSteps(t)
  }

  /** A completed flush pushes the new pair of files, each family on its own. */
  lemma CppFlushAdvances(files: Files, max: nat, t: Bytes)
    ensures var after := Run(files, CppFlushSteps(files, max, t));
            && Column(after, Json, max + 1) == Advance(Column(files, Json, max + 1), 0, Some(t))
            && Column(after, Hash, max + 1) == Advance(Column(files, Hash, max + 1), 0, Some(HashBytes(Checksum(t))))
            && forall f: File | f.slot > max :: Look(after, f) == Look(files, f)
  {
    var save := CppSaveSteps(t);
    var rotated := CppRotated(files, max);
    CppRotationShifts(files, max, Json);
    CppRotationShifts(files, max, Hash);
    RunConcat(files, CppRotateSteps(files, max), save);
    RunTwo(rotated, save[0], save[1]);
    var after := Run(files, CppFlushSteps(files, max, t));
    assert Column(after, Json, max + 1) == Column(rotated, Json, max + 1)[0 := Some(t)];
    assert Column(after, Hash, max + 1) == Column(rotated, Hash, max + 1)[0 := Some(HashBytes(Checksum(t)))];
  }

  // ---------- Files that stand for a row of maps

  predicate CppTextStandsFor(text: TextCodec, t: Bytes, m: KvsMap) {
    text.parse(t) == Some(CppRoot(m))
  }

  ghost predicate CppSlotHolds(text: TextCodec, files: Files, slot: nat, entry: Option<KvsMap>) {
    match entry
    case None => File(slot, Json) !in files && File(slot, Hash) !in files
    case Some(m) =>
      && File(slot, Json) in files && File(slot, Hash) in files
      && CppTextStandsFor(text, files[File(slot, Json)], m)
      && files[File(slot, Hash)] == HashBytes(Checksum(files[File(slot, Json)]))
  }

  ghost predicate CppRepresents(text: TextCodec, files: Files, max: nat, window: seq<Option<KvsMap>>) {
    |window| == max + 1 && forall k | 0 <= k <= max :: CppSlotHolds(text, files, k, window[k])
  }

  lemma CppFlushKeepsRepresentation(text: TextCodec, files: Files, max: nat, window: seq<Option<KvsMap>>,
                                    m: KvsMap, t: Bytes)
    requires CppRepresents(text, files, max, window) && CppTextStandsFor(text, t, m)
    ensures CppRepresents(text, Run(files, CppFlushSteps(files, max, t)), max, Advance(window, 0, Some(m)))
  {
    var after := Run(files, CppFlushSteps(files, max, t));
    CppFlushAdvances(files, max, t);
    forall k | 0 <= k <= max
      ensures CppSlotHolds(text, after, k, Advance(window, 0, Some(m))[k])
    {
      assert CppSlotHolds(text, files, k, window[k]);
      if k > 0 { assert CppSlotHolds(text, files, k - 1, window[k - 1]); }
      assert Look(after, File(k, Json)) == Column(after, Json, max + 1)[k];
      assert Look(after, File(k, Hash)) == Column(after, Hash, max + 1)[k];
    }
  }

  datatype Need = Required | Optional

  /** `open_json`: a missing json file is an error where the file is required and an empty map where
      it is optional; a missing hash file is an error in both cases. */
  function OpenJson(text: TextCodec, files: Files, slot: nat, need: Need): Result<KvsMap> {
    if File(slot, Json) !in files then (if need.Required? then Err(KvsFileReadError) else Ok(map[]))
    else if File(slot, Hash) !in files then Err(KvsHashFileReadError)
    else if !CppAccepts(files[File(slot, Json)], files[File(slot, Hash)]) then Err(ValidationFailed)
    else match text.parse(files[File(slot, Json)])
      case None => Err(JsonParserError)
      case Some(root) => CppParseRoot(root)
  }

  /** Every answer of an opening, for any files: which error comes first, and that success with a map means
      that the text's members carry exactly that map. */
  lemma OpenAnswers(text: TextCodec, files: Files, slot: nat, need: Need, m: KvsMap)
    ensures var r, json, hash := OpenJson(text, files, slot, need), File(slot, Json), File(slot, Hash);
            && (json !in files ==> r == if need.Required? then Err(KvsFileReadError) else Ok(map[]))
            && (json in files && hash !in files ==> r == Err(KvsHashFileReadError))
            && (json in files && hash in files ==>
                  var h, parsed := files[hash], text.parse(files[json]);
                  if PaddedByte(h, 0) * 0x100_0000 + PaddedByte(h, 1) * 0x1_0000 + PaddedByte(h, 2) * 0x100
                     + PaddedByte(h, 3) != Checksum(files[json])
                  then r == Err(ValidationFailed)
                  else if parsed.None? || !parsed.value.JObject? then r == Err(JsonParserError)
                  else
                    var members := parsed.value.members;
                    && (r == Ok(m) <==> m.Keys == members.Keys && forall k | k in members :: Carries(members[k], m[k]))
                    && (r.Err? <==> exists k :: k in members && CarriesNothing(members[k]))
                    && (r.Err? ==> r == Err(InvalidValueType)))
  {
    var json, hash := File(slot, Json), File(slot, Hash);
    if json in files && hash in files {
      AcceptedNumbers(files[json], files[hash]);
      var parsed := text.parse(files[json]);
      if parsed.Some? && parsed.value.JObject? {
        RootCarries(parsed.value.members, m);
        RootRefused(parsed.value.members);
      }
    }
  }

  lemma OpensTheEntry(text: TextCodec, files: Files, max: nat, window: seq<Option<KvsMap>>, slot: nat, need: Need)
    requires CppRepresents(text, files, max, window) && slot <= max
    ensures OpenJson(text, files, slot, need)
            == if window[slot].Some? then Ok(window[slot].value)
               else if need.Required? then Err(KvsFileReadError) else Ok(map[])
  {
    assert CppSlotHolds(text, files, slot, window[slot]);
    if window[slot].Some? {
      AcceptedHashFiles(files[File(slot, Json)], files[File(slot, Hash)]);
      HashBytesRoundTrip(Checksum(files[File(slot, Json)]));
      CppFileRoundTrip(window[slot].value);
    }
  }

  lemma CppCountsTheRow(text: TextCodec, files: Files, max: nat, window: seq<Option<KvsMap>>)
    requires CppRepresents(text, files, max, window)
    ensures Leading(Column(files, Json, max)) == Leading(window[..max])
  {
    forall k | 0 <= k < max
      ensures Column(files, Json, max)[k].Some? <==> window[k].Some?
    {
      assert CppSlotHolds(text, files, k, window[k]);
    }
    LeadingIs(Column(files, Json, max), Leading(window[..max]));
  }

  /** The snapshots are counted up to the first missing one, unless an existence test fails on the
      way. */
  function CountJson(files: Files, max: nat, broken: Option<nat>): Result<nat> {
    var count := Leading(Column(files, Json, max));
    if broken.Some? && broken.value <= count && broken.value < max then Err(PhysicalStorageFailure) else Ok(count)
  }

  class Kvs {
    const disk: Disk
    const text: TextCodec
    const max: nat

    /** The file name prefix names a directory. */
    const hasDirectory: bool
    var kvs: KvsMap

    constructor (disk: Disk, text: TextCodec, hasDirectory: bool, kvs: KvsMap)
      ensures this.disk == disk && this.text == text && this.hasDirectory == hasDirectory
      ensures this.max == KVS_MAX_SNAPSHOTS == 3 && this.kvs == kvs
    {
      this.disk, this.text, this.hasDirectory := disk, text, hasDirectory;
      this.max, this.kvs := KVS_MAX_SNAPSHOTS, kvs;
    }

    /** `locked` tells whether the attempt to take the lock succeeds, here and below. */
    method SetValue(key: string, value: KvsValue, locked: bool) returns (r: Result<()>)
      modifies this
      ensures locked ==> r == Ok(()) && kvs == old(kvs)[key := value]
      ensures !locked ==> r == Err(MutexLockFailed) && kvs == old(kvs)
    {
      if !locked {
        return Err(MutexLockFailed);
      }
      kvs := kvs[key := value];
      r := Ok(());
    }

    /** `broken` is the slot whose existence test fails, if there is one. */
    method SnapshotCount(broken: Option<nat>) returns (r: Result<nat>)
      ensures r == CountJson(disk.files, max, broken)
      ensures r.Err? <==>
                && broken.Some? && broken.value < max
                && forall k :: 0 <= k < broken.value ==> File(k, Json) in disk.files
      ensures r.Err? ==> r == Err(PhysicalStorageFailure)
      ensures r.Ok? ==>
                && r.value <= max && (forall k :: 0 <= k < r.value ==> File(k, Json) in disk.files)
                && (r.value < max ==> File(r.value, Json) !in disk.files)
    {
      var count := 0;
      for idx := 0 to max
        invariant count == idx && (broken.Some? ==> broken.value >= idx)
        invariant forall k :: 0 <= k < idx ==> File(k, Json) in disk.files
      {
        if broken == Some(idx) {
          LeadingAtLeast(Column(disk.files, Json, max), idx);
          return Err(PhysicalStorageFailure);
        }
        if File(idx, Json) !in disk.files {
          break;
        }
        count := idx + 1;
      }
      LeadingIs(Column(disk.files, Json, max), count);
      r := Ok(count);
    }

    /** Renames one file to the next slot; a missing source is no failure. */
    method MoveUp(kind: Kind, idx: nat) returns (r: Result<()>)
      requires idx > 0
      modifies disk
      ensures var steps := MoveFile(old(disk.files), kind, idx);
              && Ran(old(disk.files), old(disk.budget), steps, disk.files, disk.budget)
              && r == if Allowed(old(disk.budget), |steps|) < |steps| then Err(PhysicalStorageFailure) else Ok(())
    {
      ghost var files0, steps := disk.files, MoveFile(disk.files, kind, idx);
      assert steps[..0] == [] && steps[..|steps|] == steps;
      if steps != [] { RunOne(files0, steps[0]); }
      var io := disk.Rename(File(idx - 1, kind), File(idx, kind));
      if io == IoError {
        return Err(PhysicalStorageFailure);
      }
      r := Ok(());
    }

    /** One round of the rotation: first the hash, then the json file. */
    method RotateRound(idx: nat) returns (r: Result<()>)
      requires idx > 0
      modifies disk
      ensures var steps := CppRound(old(disk.files), idx);
              && Ran(old(disk.files), old(disk.budget), steps, disk.files, disk.budget)
              && r == if Allowed(old(disk.budget), |steps|) < |steps| then Err(PhysicalStorageFailure) else Ok(())
    {
      ghost var before, budget0 := disk.files, disk.budget;
      ghost var moveHash, moveJson := MoveFile(before, Hash, idx), MoveFile(before, Json, idx);
      MoveFileEffect(before, Hash, idx);
      r := MoveUp(Hash, idx);
      ghost var files1, budget1 := disk.files, disk.budget;
      if r.Err? {
        RanConcat(before, budget0, moveHash, moveJson, files1, budget1, files1, budget1);
        return;
      }
      assert moveHash[..|moveHash|] == moveHash;
      assert Look(files1, File(idx - 1, Json)) == Look(before, File(idx - 1, Json));
      r := MoveUp(Json, idx);
      RanConcat(before, budget0, moveHash, moveJson, files1, budget1, disk.files, disk.budget);
    }

    /** Rotates from the top slot down, stopping at the first failure. */
    method SnapshotRotate(locked: bool) returns (r: Result<()>)
      modifies disk
      ensures !locked ==> r == Err(MutexLockFailed) && disk.files == old(disk.files) && disk.budget == old(disk.budget)
      ensures locked ==>
                var steps := CppRotateSteps(old(disk.files), max);
                && Ran(old(disk.files), old(disk.budget), steps, disk.files, disk.budget)
                && r == if Allowed(old(disk.budget), |steps|) < |steps| then Err(PhysicalStorageFailure) else Ok(())
    {
      if !locked {
        return Err(MutexLockFailed);
      }
      ghost var files0, budget0 := disk.files, disk.budget;
      ghost var steps := CppRotateSteps(files0, max);
      ghost var done: seq<Step> := [];
      var idx := max;
      while idx > 0
        invariant 0 <= idx <= max
        invariant steps == done + CppRotateSteps(disk.files, idx)
        invariant Ran(files0, budget0, done, disk.files, disk.budget) && Allowed(budget0, |done|) == |done|
      {
        ghost var before, budget1 := disk.files, disk.budget;
        ghost var round := CppRound(before, idx);
        ghost var rest := CppRotateSteps(Run(before, round), idx - 1);
        assert steps == (done + round) + rest;
        r := RotateRound(idx);
        RanConcat(files0, budget0, done, round, before, budget1, disk.files, disk.budget);
        if r.Err? {
          RanConcat(files0, budget0, done + round, rest, disk.files, disk.budget, disk.files, disk.budget);
          return;
        }
        assert round[..|round|] == round;
        done := done + round;
        idx := idx - 1;
      }
      assert steps == done;
      r := Ok(());
    }

    /** `created` tells whether the directory exists or can be created. */
    method WriteJsonData(buf: Bytes, created: bool) returns (r: Result<()>)
      modifies disk
      ensures var steps := if hasDirectory && created then CppSaveSteps(buf) else [];
              && Ran(old(disk.files), old(disk.budget), steps, disk.files, disk.budget)
              && r == if Allowed(old(disk.budget), |steps|) < |steps| || !hasDirectory || !created
                      then Err(PhysicalStorageFailure) else Ok(())
    {
      if !hasDirectory {
        return Err(PhysicalStorageFailure);
      } else if !created {
        return Err(PhysicalStorageFailure);
      }
      ghost var files0, steps := disk.files, CppSaveSteps(buf);
      RunOne(files0, steps[0]);
      RunTwo(files0, steps[0], steps[1]);
      assert steps[..0] == [] && steps[..1] == [steps[0]] && steps[..2] == steps;
      var io := disk.Write(File(0, Json), buf);
      if io != IoDone {
        return Err(PhysicalStorageFailure);
      }
      var hash := CalculateHashAdler32(buf);
      io := disk.Write(File(0, Hash), HashBytes(hash as nat));
      if io != IoDone {
        return Err(PhysicalStorageFailure);
      }
      r := Ok(());
    }

    method ConvertMap() returns (r: Result<JsonValue>)
      ensures r == Ok(CppRoot(kvs))
    {
      var root: map<string, JsonValue> := map[];
      var rest := kvs.Keys;
      while rest != {}
        invariant rest <= kvs.Keys && root.Keys == kvs.Keys - rest
        invariant forall k | k in root :: root[k] == CppRoot(kvs).members[k]
        decreases rest
      {
        var key :| key in rest;
        var conv := KvsValueToAny(kvs[key]);
        if conv.Err? {
          return Err(InvalidValueType);
        }
        root := root[key := conv.value];
        rest := rest - {key};
      }
      assert root == CppRoot(kvs).members;
      r := Ok(JObject(root));
    }

    /** A flush that no other thread disturbs. A failure before the rotation leaves every file as it
        was; a missing directory is found out only after it. */
    method Flush(firstLock: bool, secondLock: bool, created: bool, order: nat) returns (r: Result<()>)
      modifies disk
      ensures var t := text.render(CppRoot(kvs), order);
              if !firstLock || t.None? || !secondLock then
                && disk.files == old(disk.files) && disk.budget == old(disk.budget)
                && r == Err(if firstLock && t.None? then JsonGeneratorError else MutexLockFailed)
              else
                var steps := CppRotateSteps(old(disk.files), max)
                             + if hasDirectory && created then CppSaveSteps(t.value) else [];
                && Ran(old(disk.files), old(disk.budget), steps, disk.files, disk.budget)
                && r == if Allowed(old(disk.budget), |steps|) < |steps| || !hasDirectory || !created
                        then Err(PhysicalStorageFailure) else Ok(())
    {
      ghost var files0, budget0 := disk.files, disk.budget;
      if !firstLock {
        return Err(MutexLockFailed);
      }
      var root := ConvertMap();
      if root.Err? {
        return Err(InvalidValueType);
      }
      var buf := text.render(root.value, order);
      if buf.None? {
        return Err(JsonGeneratorError);
      }
      r := SnapshotRotate(secondLock);
      ghost var files1, budget1, rotate := disk.files, disk.budget, CppRotateSteps(files0, max);
      ghost var save := if hasDirectory && created then CppSaveSteps(buf.value) else [];
      if r.Err? {
        if secondLock {
          RanConcat(files0, budget0, rotate, save, files1, budget1, files1, budget1);
        }
        return;
      }
      r := WriteJsonData(buf.value, created);
      RanConcat(files0, budget0, rotate, save, files1, budget1, disk.files, disk.budget);
    }

    method SnapshotRestore(id: nat, locked: bool, broken: Option<nat>) returns (r: Result<()>)
      modifies this
      ensures r.Err? ==> kvs == old(kvs)
      ensures var count := CountJson(disk.files, max, broken);
              if !locked then r == Err(MutexLockFailed)
              else if count.Err? then r == Err(count.error)
              else if id == 0 || count.value < id then r == Err(InvalidSnapshotId)
              else match OpenJson(text, disk.files, id, Required)
                case Ok(m) => r == Ok(()) && kvs == m
                case Err(e) => r == Err(e)
    {
      if !locked {
        return Err(MutexLockFailed);
      }
      var count := SnapshotCount(broken);
      if count.Err? {
        return Err(count.error);
      } else if id == 0 {
        return Err(InvalidSnapshotId);
      } else if count.value < id {
        return Err(InvalidSnapshotId);
      }
      var data := Open(id, Required);
      match data
      case Ok(m) =>
        kvs := m;
        r := Ok(());
      case Err(e) =>
        r := Err(e);
    }

    method Open(slot: nat, need: Need) returns (r: Result<KvsMap>)
      ensures r == OpenJson(text, disk.files, slot, need)
    {
      if File(slot, Json) !in disk.files {
        if need == Required {
          return Err(KvsFileReadError);
        }
        return Ok(map[]);
      }
      var data := disk.files[File(slot, Json)];
      if File(slot, Hash) !in disk.files {
        return Err(KvsHashFileReadError);
      }
      var valid := CheckHash(data, disk.files[File(slot, Hash)]);
      AcceptedHashFiles(data, disk.files[File(slot, Hash)]);
      if !valid {
        return Err(ValidationFailed);
      }
      var root := text.parse(data);
      if root.None? {
        return Err(JsonParserError);
      }
      r := CppParseRoot(root.value);
    }
  }

  // ---------- Runs of flushes

  /** The files after flushes that wrote these texts. */
  function CppFlushMany(files: Files, max: nat, texts: seq<Bytes>): Files
    decreases |texts|
  {
    if texts == [] then files
    else
      var before := CppFlushMany(files, max, texts[..|texts| - 1]);
      Run(before, CppFlushSteps(before, max, texts[|texts| - 1]))
  }

  /** Text i is what a flush printed for map i. */
  ghost predicate CppPrinted(text: TextCodec, maps: seq<KvsMap>, texts: seq<Bytes>) {
    |texts| == |maps| && forall i :: 0 <= i < |maps| ==> CppTextStandsFor(text, texts[i], maps[i])
  }

  lemma {:induction false} CppRunAdvances(text: TextCodec, files: Files, max: nat, window: seq<Option<KvsMap>>,
                                          maps: seq<KvsMap>, texts: seq<Bytes>)
    requires CppRepresents(text, files, max, window) && CppPrinted(text, maps, texts)
    ensures CppRepresents(text, CppFlushMany(files, max, texts), max, AdvanceAll(window, 0, Present(maps)))
    decreases |maps|
  {
    if maps != [] {
      var n := |maps| - 1;
      CppRunAdvances(text, files, max, window, maps[..n], texts[..n]);
      CppFlushKeepsRepresentation(text, CppFlushMany(files, max, texts[..n]), max,
                                  AdvanceAll(window, 0, Present(maps[..n])), maps[n], texts[n]);
      AdvanceAllOneMore(window, 0, Present(maps[..n]), Some(maps[n]));
      PresentOneMore(maps);
    } else {
      assert Present(maps) == [];
    }
  }

  lemma CppRowFromEmpty(text: TextCodec, max: nat, maps: seq<KvsMap>, texts: seq<Bytes>)
    returns (row: seq<Option<KvsMap>>)
    requires CppPrinted(text, maps, texts)
    ensures CppRepresents(text, CppFlushMany(map[], max, texts), max, row) && ShowsLatest(row, maps)
  {
    var empty := Absent<KvsMap>(max + 1);
    row := AdvanceAll(empty, 0, Present(maps));
    assert CppRepresents(text, map[], max, empty);
    CppRunAdvances(text, map[], max, empty, maps, texts);
    OnlyPushesStand(max + 1, maps, row);
  }

  lemma CppReplies(text: TextCodec, files: Files, max: nat, row: seq<Option<KvsMap>>, maps: seq<KvsMap>, k: nat)
    requires CppRepresents(text, files, max, row) && ShowsLatest(row, maps)
    ensures Leading(Column(files, Json, max)) == Least(|maps|, max)
    ensures k <= max ==>
              OpenJson(text, files, k, Required)
              == if k < |maps| then Ok(maps[|maps| - 1 - k]) else Err(KvsFileReadError)
  {
    CppCountsTheRow(text, files, max, row);
    LeadingIs(row[..max], Least(|maps|, max));
    if k <= max { OpensTheEntry(text, files, max, row, k, Required); }
  }

  /** After n flushes from an empty directory the count is min(n, max), yet the max + 1 newest maps
      are kept: restoring k gives the k-th newest exactly for 1 <= k <= min(n - 1, max). */
  lemma CppHistory(text: TextCodec, max: nat, maps: seq<KvsMap>, texts: seq<Bytes>, k: nat)
    requires CppPrinted(text, maps, texts)
    ensures var files := CppFlushMany(map[], max, texts);
            var n, count := |maps|, Leading(Column(files, Json, max));
            && count == Least(n, max)
            && (1 <= k <= count ==>
                  OpenJson(text, files, k, Required) == if k < n then Ok(maps[n - 1 - k]) else Err(KvsFileReadError))
            && (1 <= k < n && k <= max <==> 1 <= k <= count && OpenJson(text, files, k, Required).Ok?)
  {
    var row := CppRowFromEmpty(text, max, maps, texts);
    CppReplies(text, CppFlushMany(map[], max, texts), max, row, maps, k);
  }

  function CppTexts(text: TextCodec, maps: seq<KvsMap>, orders: seq<nat>): (r: seq<Bytes>)
    requires |orders| == |maps| && CppPrintable(text, maps, orders)
    ensures |r| == |maps|
  {
    seq(|maps|, i requires 0 <= i < |maps| => text.render(CppRoot(maps[i]), orders[i]).value)
  }

  predicate CppPrintable(text: TextCodec, maps: seq<KvsMap>, orders: seq<nat>)
    requires |orders| == |maps|
  {
    forall i | 0 <= i < |maps| :: text.render(CppRoot(maps[i]), orders[i]).Some?
  }

  lemma CppTextsStand(text: TextCodec, maps: seq<KvsMap>, orders: seq<nat>)
    requires text.RoundTrips() && |orders| == |maps| && CppPrintable(text, maps, orders)
    ensures CppPrinted(text, maps, CppTexts(text, maps, orders))
  {
  }

  lemma CppFlushOnceMore(files: Files, max: nat, texts: seq<Bytes>, i: nat)
    requires i < |texts|
    ensures var before := CppFlushMany(files, max, texts[..i]);
            CppFlushMany(files, max, texts[..i + 1]) == Run(before, CppFlushSteps(before, max, texts[i]))
  {
    assert texts[..i + 1][..i] == texts[..i];
  }

  /** The history theorem for the store on its files: a new store on an empty directory that is flushed
      whenever its map has become one of the given ones, then the snapshot count and one restore. */
  method RunFromEmpty(text: TextCodec, maps: seq<KvsMap>, orders: seq<nat>, id: nat)
    returns (files: Files, count: nat, restored: Result<KvsMap>)
    requires text.RoundTrips() && |orders| == |maps| && CppPrintable(text, maps, orders)
    ensures files == CppFlushMany(map[], KVS_MAX_SNAPSHOTS, CppTexts(text, maps, orders))
    ensures count == Least(|maps|, KVS_MAX_SNAPSHOTS)
    ensures restored == if id == 0 || count < id then Err(InvalidSnapshotId)
                        else if id < |maps| then Ok(maps[|maps| - 1 - id]) else Err(KvsFileReadError)
  {
    ghost var texts := CppTexts(text, maps, orders);
    var disk := new Disk(map[], None);
    var store := new Kvs(disk, text, true, map[]);
    for i := 0 to |maps|
      invariant disk.files == CppFlushMany(map[], KVS_MAX_SNAPSHOTS, texts[..i]) && disk.budget == None
    {
      ghost var steps := CppFlushSteps(disk.files, KVS_MAX_SNAPSHOTS, texts[i]);
      store.kvs := maps[i];
      var _ := store.Flush(true, true, true, orders[i]);
      assert steps[..|steps|] == steps;
      CppFlushOnceMore(map[], KVS_MAX_SNAPSHOTS, texts, i);
    }
    assert texts[..|maps|] == texts;
    files := disk.files;
    CppTextsStand(text, maps, orders);
    CppHistory(text, KVS_MAX_SNAPSHOTS, maps, texts, id);
    var counted := store.SnapshotCount(None);
    count := counted.value;
    var r := store.SnapshotRestore(id, true, None);
    restored := match r case Ok(_) => Ok(store.kvs) case Err(e) => Err(e);
  }

  // ---------- Flushes without a directory

  function CppRotateMany(files: Files, max: nat, times: nat): Files {
    if times == 0 then files else CppRotated(CppRotateMany(files, max, times - 1), max)
  }

  lemma {:induction false} CppRotateManyAdvances(files: Files, max: nat, times: nat, kind: Kind)
    ensures Column(CppRotateMany(files, max, times), kind, max + 1)
            == AdvanceAll(Column(files, kind, max + 1), 0, Absent(times))
  {
    if times > 0 {
      CppRotateManyAdvances(files, max, times - 1, kind);
      CppRotationShifts(CppRotateMany(files, max, times - 1), max, kind);
      AdvanceAllOneMore(Column(files, kind, max + 1), 0, Absent(times - 1), None);
      assert Absent<Bytes>(times) == Absent(times - 1) + [None];
    }
  }

  /** Of the family only the newest file is left, in the last slot. */
  ghost predicate Drained(files: Files, after: Files, max: nat, kind: Kind) {
    Column(after, kind, max + 1) == Absent(max) + [Newest(Column(files, kind, max + 1))]
  }

  /** A store whose file name prefix names no directory fails at every flush, but only after the
      rotation: max flushes later the slots 0..max-1 are empty, and of each family only the newest
      file is left, in the last slot. */
  lemma FlushesWithoutDirectoryDrain(files: Files, max: nat, times: nat, kind: Kind)
    requires times >= max
    ensures Drained(files, CppRotateMany(files, max, times), max, kind)
  {
    var row := Column(files, kind, max + 1);
    CppRotateManyAdvances(files, max, times, kind);
    SettlesWhenNothingIsAdded(row, 0, times);
    assert row[0..] == row && row[..0] + Absent(max) == Absent(max);
  }

  method FlushOnceWithoutDirectory(store: Kvs, order: nat) returns (r: Result<()>)
    requires !store.hasDirectory && store.disk.budget == None
    requires store.text.render(CppRoot(store.kvs), order).Some?
    modifies store.disk
    ensures r == Err(PhysicalStorageFailure) && store.disk.budget == None
    ensures store.disk.files == CppRotated(old(store.disk.files), store.max)
  {
    ghost var steps := CppRotateSteps(store.disk.files, store.max);
    r := store.Flush(true, true, true, order);
    assert steps + [] == steps && steps[..|steps|] == steps;
  }

  /** Such a store, flushed again and again: no flush succeeds. */
  method FlushWithoutDirectory(store: Kvs, orders: seq<nat>) returns (succeeded: bool)
    requires !store.hasDirectory && store.disk.budget == None
    requires forall order | order in orders :: store.text.render(CppRoot(store.kvs), order).Some?
    modifies store.disk
    ensures !succeeded
    ensures store.disk.files == CppRotateMany(old(store.disk.files), store.max, |orders|)
    ensures |orders| >= store.max ==>
              && Drained(old(store.disk.files), store.disk.files, store.max, Json)
              && Drained(old(store.disk.files), store.disk.files, store.max, Hash)
  {
    ghost var files0 := store.disk.files;
    succeeded := false;
    for i := 0 to |orders|
      invariant !succeeded
      invariant store.disk.files == CppRotateMany(files0, store.max, i) && store.disk.budget == None
    {
      CppRotateOnceMore(files0, store.max, i);
      assert orders[i] in orders;
      var r := FlushOnceWithoutDirectory(store, orders[i]);
      succeeded := succeeded || r.Ok?;
    }
    DrainedAfterAll(files0, store.max, |orders|);
  }

  lemma CppRotateOnceMore(files: Files, max: nat, i: nat)
    ensures CppRotateMany(files, max, i + 1) == CppRotated(CppRotateMany(files, max, i), max)
  {
  }

  lemma DrainedAfterAll(files: Files, max: nat, times: nat)
    ensures times >= max ==>
              && Drained(files, CppRotateMany(files, max, times), max, Json)
              && Drained(files, CppRotateMany(files, max, times), max, Hash)
  {
    if times >= max {
      FlushesWithoutDirectoryDrain(files, max, times, Json);
      FlushesWithoutDirectoryDrain(files, max, times, Hash);
    }
  }

  // ---------- A flush cut between its two writes

  /** Slot 0 then has the new text and no hash file, and does not open in either mode. */
  lemma CutBetweenWrites(text: TextCodec, files: Files, max: nat, t: Bytes, need: Need)
    requires max > 0
    ensures var steps, rotate := CppFlushSteps(files, max, t), |CppRotateSteps(files, max)|;
            var now := Run(files, steps[..rotate + 1]);
            && |steps| == rotate + 2
            && Look(now, File(0, Json)) == Some(t) && File(0, Hash) !in now
            && OpenJson(text, now, 0, need) == Err(KvsHashFileReadError)
    ensures Run(files, CppFlushSteps(files, max, t))
            == Apply(Run(files, CppFlushSteps(files, max, t)[..|CppRotateSteps(files, max)| + 1]),
                     Write(File(0, Hash), HashBytes(Checksum(t))))
  {
    var rotate, save := CppRotateSteps(files, max), CppSaveSteps(t);
    var rotated := CppRotated(files, max);
    assert (rotate + save)[..|rotate| + 1] == rotate + [save[0]];
    RunConcat(files, rotate, [save[0]]);
    RunOne(rotated, save[0]);
    RunConcat(files, rotate, save);
    RunTwo(rotated, save[0], save[1]);
    CppRotationShifts(files, max, Hash);
    assert Column(rotated, Hash, max + 1)[0] == Look(rotated, File(0, Hash));
  }

  // ---------- Two flushes at once

  /** The lock does not cover rotation and writing together. In one interleaving, both flushes rotate
      before the first writes, and the first map leaves no trace: the files are those of the second
      flush after a rotation that put nothing into slot 0, and slot 1 is a hole. */
  lemma OverlappingFlushesLoseOne(files: Files, max: nat, first: Bytes, second: Bytes)
    requires max >= 2
    ensures var rotated := CppRotated(CppRotated(files, max), max);
            var after := Run(Run(rotated, CppSaveSteps(first)), CppSaveSteps(second));
            && after == Run(rotated, CppSaveSteps(second))
            && Look(after, File(0, Json)) == Some(second)
            && Look(after, File(1, Json)) == Look(after, File(1, Hash)) == None
  {
    var once := CppRotated(files, max);
    var rotated := CppRotated(once, max);
    var a, b := CppSaveSteps(first), CppSaveSteps(second);
    RunTwo(rotated, a[0], a[1]);
    RunTwo(Run(rotated, a), b[0], b[1]);
    RunTwo(rotated, b[0], b[1]);
    EmptiedByRotation(files, max, Json);
    EmptiedByRotation(files, max, Hash);
  }

  /** In another one the hash files are written in the other order: the current snapshot is the second
      text beside the first hash, unreadable unless the checksums are the same. */
  lemma OverlappingFlushesMixPair(text: TextCodec, rotated: Files, first: Bytes, second: Bytes, need: Need)
    requires Checksum(first) != Checksum(second)
    ensures var a, b := CppSaveSteps(first), CppSaveSteps(second);
            OpenJson(text, Run(rotated, [a[0], b[0], b[1], a[1]]), 0, need) == Err(ValidationFailed)
  {
    var a, b := CppSaveSteps(first), CppSaveSteps(second);
    var after := Run(rotated, [a[0], b[0], b[1], a[1]]);
    assert [a[0], b[0], b[1], a[1]] == [a[0], b[0]] + [b[1], a[1]];
    RunConcat(rotated, [a[0], b[0]], [b[1], a[1]]);
    RunTwo(rotated, a[0], b[0]);
    RunTwo(Run(rotated, [a[0], b[0]]), b[1], a[1]);
    assert after[File(0, Json)] == second && after[File(0, Hash)] == HashBytes(Checksum(first));
    AcceptedHashFiles(second, HashBytes(Checksum(first)));
    HashBytesRoundTrip(Checksum(first));
  }

  lemma EmptiedByRotation(files: Files, max: nat, kind: Kind)
    requires max >= 2
    ensures Look(CppRotated(CppRotated(files, max), max), File(1, kind)) == None
  {
    var once := CppRotated(files, max);
    CppRotationShifts(files, max, kind);
    CppRotationShifts(once, max, kind);
    assert Column(once, kind, max + 1)[0] == None;
    assert Column(CppRotated(once, max), kind, max + 1)[1] == None;
  }
}
