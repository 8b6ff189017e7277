/** The JSON backend of the Rust store, working step by step on a disk. */
module RustBackend {
  import opened Values
  import opened Storage
  import opened Timeline
  import opened Adler32
  import opened JsonCodec
  import opened Rotation

  /** What loading a slot gives on these files. */
  function LoadSlot(text: TextCodec, files: Files, slot: nat): Result<KvsMap> {
    var json, hash := Look(files, File(slot, Json)), Look(files, File(slot, Hash));
    if json.None? then Err(FileNotFound)
    else if !text.utf8(json.value) then Err(UnmappedError)
    else if hash.None? then Err(FileNotFound)
    else if !RustAccepts(json.value, hash.value) then Err(ValidationFailed)
    else match text.parse(json.value)
      case None => Err(JsonParserError)
      case Some(tree) => if Decode(tree).Object? then Ok(Decode(tree).fields) else Err(JsonParserError)
  }

  /** What restoring a snapshot gives on these files. */
  function RestoreSlot(text: TextCodec, files: Files, max: nat, id: nat): Result<KvsMap> {
    if id == 0 || Leading(Column(files, Json, max)) < id then Err(InvalidSnapshotId)
    else LoadSlot(text, files, id)
  }

  class JsonBackend {
    const snapshotMaxCount: nat
    const disk: Disk
    const text: TextCodec

    constructor (disk: Disk, snapshotMaxCount: nat, text: TextCodec)
      ensures this.disk == disk && this.snapshotMaxCount == snapshotMaxCount && this.text == text
    {
      this.disk, this.snapshotMaxCount, this.text := disk, snapshotMaxCount, text;
    }

    /** The two renames of one round, hash file first. */
    method MoveSnapshot(idx: nat) returns (r: Result<()>)
      requires idx > 0 && File(idx - 1, Json) in disk.files && File(idx - 1, Hash) in disk.files
      modifies disk
      ensures Ran(old(disk.files), old(disk.budget), MoveUp(idx), disk.files, disk.budget)
      ensures r == if Allowed(old(disk.budget), 2) < 2 then Err(UnmappedError) else Ok(())
    {
      ghost var files0, moves := disk.files, MoveUp(idx);
      assert moves[..0] == [] && moves[..1] == [moves[0]] && moves[..2] == moves;
      RunOne(files0, moves[0]);
      RunTwo(files0, moves[0], moves[1]);
      var io := disk.Rename(File(idx - 1, Hash), File(idx, Hash));
      if io != IoDone {
        return Err(UnmappedError);
      }
      io := disk.Rename(File(idx - 1, Json), File(idx, Json));
      if io != IoDone {
        return Err(UnmappedError);
      }
      r := Ok(());
    }

    /** Rotates from the top slot down; stops at the first slot with only one of its files. */
    method SnapshotRotate() returns (r: Result<()>)
      modifies disk
      ensures var n := Rounds(snapshotMaxCount); var steps := RotateSteps(old(disk.files), n);
              && Ran(old(disk.files), old(disk.budget), steps, disk.files, disk.budget)
              && r == if Allowed(old(disk.budget), |steps|) < |steps| then Err(UnmappedError)
                      else if RotateOk(old(disk.files), n) then Ok(()) else Err(IntegrityCorrupted)
    {
      ghost var files0, budget0, n := disk.files, disk.budget, Rounds(snapshotMaxCount);
      ghost var steps := RotateSteps(files0, n);
      ghost var done: seq<Step> := [];
      var idx := if snapshotMaxCount == 0 then 0 else snapshotMaxCount - 1;
      while idx >= 1
        invariant 0 <= idx <= n
        invariant steps == done + RotateSteps(disk.files, idx)
        invariant Blocked(files0, n) == Blocked(disk.files, idx)
        invariant Ran(files0, budget0, done, disk.files, disk.budget) && Allowed(budget0, |done|) == |done|
      {
        var jsonOldExists, hashOldExists := File(idx - 1, Json) in disk.files, File(idx - 1, Hash) in disk.files;
        if !jsonOldExists && !hashOldExists {
          idx := idx - 1;
          continue;
        } else if !jsonOldExists || !hashOldExists {
          assert steps == done;
          return Err(IntegrityCorrupted);
        }
        ghost var before, budget1, moves := disk.files, disk.budget, MoveUp(idx);
        ghost var rest := RotateSteps(Run(before, moves), idx - 1);
        assert steps == (done + moves) + rest;
        OneRoundBlocked(before, idx);
        r := MoveSnapshot(idx);
        RanConcat(files0, budget0, done, moves, before, budget1, disk.files, disk.budget);
        if r.Err? {
          RanConcat(files0, budget0, done + moves, rest, disk.files, disk.budget, disk.files, disk.budget);
          return;
        }
        assert moves[..2] == moves;
        done := done + moves;
        idx := idx - 1;
      }
      assert steps == done;
      r := Ok(());
    }

    method Load(slot: nat) returns (r: Result<KvsMap>)
      ensures r == LoadSlot(text, disk.files, slot)
    {
      if File(slot, Json) !in disk.files {
        return Err(FileNotFound);
      }
      var jsonStr := disk.files[File(slot, Json)];
      if !text.utf8(jsonStr) {
        return Err(UnmappedError);
      }
      if File(slot, Hash) !in disk.files {
        return Err(FileNotFound);
      }
      var hashBytes := disk.files[File(slot, Hash)];
      if |hashBytes| != 4 {
        return Err(ValidationFailed);
      }
      var fileHash := ParseHash(hashBytes);
      var hashKvs := Checksum(jsonStr);
      if hashKvs != fileHash {
        return Err(ValidationFailed);
      }
      var jsonValue := text.parse(jsonStr);
      if jsonValue.None? {
        return Err(JsonParserError);
      }
      var kvsValue := Decode(jsonValue.value);
      if kvsValue.Object? {
        r := Ok(kvsValue.fields);
      } else {
        r := Err(JsonParserError);
      }
    }

    method Save(m: KvsMap, order: nat) returns (r: Result<()>)
      modifies disk
      ensures var steps := SaveSteps(text, m, order);
              && Ran(old(disk.files), old(disk.budget), steps, disk.files, disk.budget)
              && r == if Allowed(old(disk.budget), |steps|) < |steps| then Err(UnmappedError)
                      else if TextOf(text, m, order).Some? then Ok(()) else Err(JsonGeneratorError)
    {
      ghost var files0, steps := disk.files, SaveSteps(text, m, order);
      var jsonStr := text.render(Encode(Object(m)), order);
      if jsonStr.None? {
        return Err(JsonGeneratorError);
      }
      RunOne(files0, steps[0]);
      RunTwo(files0, steps[0], steps[1]);
      assert steps[..0] == [] && steps[..1] == [steps[0]] && steps[..2] == steps;
      var io := disk.Write(File(0, Json), jsonStr.value);
      if io != IoDone {
        return Err(UnmappedError);
      }
      io := disk.Write(File(0, Hash), HashBytes(Checksum(jsonStr.value)));
      if io != IoDone {
        return Err(UnmappedError);
      }
      r := Ok(());
    }

    method Flush(m: KvsMap, order: nat) returns (r: Result<()>)
      modifies disk
      ensures var steps := FlushSteps(text, old(disk.files), snapshotMaxCount, m, order);
              && Ran(old(disk.files), old(disk.budget), steps, disk.files, disk.budget)
              && r == if Allowed(old(disk.budget), |steps|) < |steps| then Err(UnmappedError)
                      else FlushOutcome(text, old(disk.files), snapshotMaxCount, m, order)
    {
      ghost var files0, budget0, n := disk.files, disk.budget, Rounds(snapshotMaxCount);
      ghost var rotate, save := RotateSteps(files0, n), SaveSteps(text, m, order);
      r := SnapshotRotate();
      ghost var files1, budget1 := disk.files, disk.budget;
      if r.Err? {
        ghost var rest := if RotateOk(files0, n) then save else [];
        RanConcat(files0, budget0, rotate, rest, files1, budget1, files1, budget1);
        return;
      }
      r := Save(m, order);
      RanConcat(files0, budget0, rotate, save, files1, budget1, disk.files, disk.budget);
    }

    method SnapshotCount() returns (count: nat)
      ensures count == Leading(Column(disk.files, Json, snapshotMaxCount))
    {
      count := 0;
      for idx := 0 to snapshotMaxCount
        invariant count == idx
        invariant forall k :: 0 <= k < idx ==> File(k, Json) in disk.files
      {
        if File(idx, Json) !in disk.files {
          break;
        }
        count := count + 1;
      }
      LeadingIs(Column(disk.files, Json, snapshotMaxCount), count);
    }

    method SnapshotRestore(id: nat) returns (r: Result<KvsMap>)
      ensures r == RestoreSlot(text, disk.files, snapshotMaxCount, id)
    {
      if id == 0 {
        return Err(InvalidSnapshotId);
      }
      var count := SnapshotCount();
      if count < id {
        return Err(InvalidSnapshotId);
      }
      r := Load(id);
    }
  }

  /** A slot loads exactly when its hash file holds the four bytes of its text's checksum and the
      text is a JSON tree that decodes to an object. */
  lemma LoadsOnlyMatchingPairs(text: TextCodec, files: Files, slot: nat, m: KvsMap)
    ensures LoadSlot(text, files, slot) == Ok(m) <==>
            && File(slot, Json) in files && File(slot, Hash) in files
            && text.utf8(files[File(slot, Json)])
            && files[File(slot, Hash)] == HashBytes(Checksum(files[File(slot, Json)]))
            && text.parse(files[File(slot, Json)]).Some?
            && Decode(text.parse(files[File(slot, Json)]).value) == Object(m)
  {
    if File(slot, Json) in files && File(slot, Hash) in files {
      AcceptedHashFiles(files[File(slot, Json)], files[File(slot, Hash)]);
    }
  }

  // ---------- What a load answers, spelled out

  /** The hash file has four bytes that show the checksum of the text, most significant first. */
  predicate ShowsChecksum(h: Bytes, t: Bytes) {
    && |h| == 4
    && h[0] as nat * 0x100_0000 + h[1] as nat * 0x1_0000 + h[2] as nat * 0x100 + h[3] as nat == Checksum(t)
  }

  /** The members that a file's tree stands for: those of the payload if the root is tagged "obj", those of
      the root itself if it is not read by a tag; no map at all otherwise. */
  function RootMembers(tree: JsonValue): Option<map<string, JsonValue>> {
    if !tree.JObject? then None
    else if !("t" in tree.members && "v" in tree.members && tree.members["t"].JString?) then
      Some(tree.members - {"t", "v"})
    else if tree.members["t"].text == "obj" && tree.members["v"].JObject? then Some(tree.members["v"].members)
    else None
  }

  /** Every answer of a load, for any files. */
  lemma LoadAnswers(text: TextCodec, files: Files, slot: nat)
    ensures var r, json, hash := LoadSlot(text, files, slot), File(slot, Json), File(slot, Hash);
            && (json !in files ==> r == Err(FileNotFound))
            && (json in files && !text.utf8(files[json]) ==> r == Err(UnmappedError))
            && (json in files && text.utf8(files[json]) && hash !in files ==> r == Err(FileNotFound))
            && (json in files && text.utf8(files[json]) && hash in files ==>
                  var parsed := text.parse(files[json]);
                  if !ShowsChecksum(files[hash], files[json]) then r == Err(ValidationFailed)
                  else if parsed.None? || RootMembers(parsed.value).None? then r == Err(JsonParserError)
                  else
                    var members := RootMembers(parsed.value).value;
                    && r.Ok? && r.value.Keys == members.Keys
                    && forall k | k in members :: r.value[k] == Decode(members[k]))
  {
    var json, hash := File(slot, Json), File(slot, Hash);
    if json in files && hash in files {
      AcceptedNumbers(files[json], files[hash]);
      var parsed := text.parse(files[json]);
      if parsed.Some? {
        ReadOtherwise(parsed.value);
        if parsed.value.JObject? && IsTagged(parsed.value.members) {
          OnlyObjIsMap(parsed.value.members);
        }
      }
    }
  }

  lemma OnlyObjIsMap(members: map<string, JsonValue>)
    requires IsTagged(members)
    ensures Decode(JObject(members)).Object? <==> members["t"].text == "obj" && members["v"].JObject?
    ensures Decode(JObject(members)).Object? ==>
              var r := Decode(JObject(members)).fields;
              && r.Keys == members["v"].members.Keys
              && forall k | k in r :: r[k] == Decode(members["v"].members[k])
  {
    ReadByTag(members);
    ReadOtherwise(JObject(members));
  }

  /** The answer to a restore, for any files: the number is refused if it is 0, above the limit, or behind a
      missing json file; otherwise the slot is loaded. */
  lemma RestoreAnswers(text: TextCodec, files: Files, max: nat, id: nat)
    ensures RestoreSlot(text, files, max, id)
            == if id == 0 || id > max || (exists k: nat :: k < id && File(k, Json) !in files)
               then Err(InvalidSnapshotId) else LoadSlot(text, files, id)
  {
    var column := Column(files, Json, max);
    assert forall k: nat :: k < max ==> (column[k].Some? <==> File(k, Json) in files);
    if id <= max && forall k: nat :: k < id ==> File(k, Json) in files {
      LeadingAtLeast(column, id);
    }
  }
}
