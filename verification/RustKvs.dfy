/** The Rust key-value store: a map in memory over a JSON backend. */
module RustKvs {
  import opened Values
  import opened Storage
  import opened Timeline
  import opened JsonCodec
  import opened Rotation
  import opened RustBackend
  import opened History

  class Kvs {
    const backend: JsonBackend
    var kvsMap: KvsMap
    const defaultsMap: KvsMap

    /** The maps that the snapshot slots stand for. */
    ghost var window: seq<Option<KvsMap>>

    /** The disk does not fail, and its files stand for the window. */
    ghost predicate Valid()
      reads this, backend.disk
    {
      && backend.text.RoundTrips() && backend.text.PrintsFinite()
      && backend.disk.budget == None
      && |window| == backend.snapshotMaxCount
      && Represents(backend.text, backend.disk.files, window)
    }

    ghost function Abstract(): Store
      reads this
    {
      Store(kvsMap, window)
    }

    constructor (backend: JsonBackend, kvsMap: KvsMap, defaultsMap: KvsMap, ghost window: seq<Option<KvsMap>>)
      requires backend.text.RoundTrips() && backend.text.PrintsFinite()
      requires backend.disk.budget == None && |window| == backend.snapshotMaxCount
      requires Represents(backend.text, backend.disk.files, window)
      ensures Valid() && Abstract() == Store(kvsMap, window)
      ensures this.backend == backend && this.defaultsMap == defaultsMap
    {
      this.backend, this.kvsMap, this.defaultsMap, this.window := backend, kvsMap, defaultsMap, window;
    }

    method SetValue(key: string, value: KvsValue)
      modifies this`kvsMap
      ensures kvsMap == old(kvsMap)[key := value]
    {
      kvsMap := kvsMap[key := value];
    }

    method RemoveKey(key: string) returns (r: Result<()>)
      modifies this`kvsMap
      ensures kvsMap == old(kvsMap) - {key}
      ensures r == if key in old(kvsMap) then Ok(()) else Err(KeyNotFound)
    {
      if key in kvsMap {
        kvsMap := kvsMap - {key};
        r := Ok(());
      } else {
        r := Err(KeyNotFound);
      }
    }

    method Reset()
      modifies this`kvsMap
      ensures kvsMap == map[]
    {
      kvsMap := map[];
    }

    method ResetKey(key: string) returns (r: Result<()>)
      modifies this`kvsMap
      ensures key in defaultsMap ==> r == Ok(()) && kvsMap == old(kvsMap) - {key}
      ensures key !in defaultsMap ==> r == Err(KeyDefaultNotFound) && kvsMap == old(kvsMap)
    {
      if key !in defaultsMap {
        return Err(KeyDefaultNotFound);
      }
      kvsMap := kvsMap - {key};
      r := Ok(());
    }

    method GetValue(key: string) returns (r: Result<KvsValue>)
      ensures r == if key in kvsMap then Ok(kvsMap[key])
                   else if key in defaultsMap then Ok(defaultsMap[key]) else Err(KeyNotFound)
    {
      if key in kvsMap {
        r := Ok(kvsMap[key]);
      } else if key in defaultsMap {
        r := Ok(defaultsMap[key]);
      } else {
        r := Err(KeyNotFound);
      }
    }

    /** Puts the memory in front of the window; ignored when no snapshots are kept. */
    method Flush(order: nat) returns (r: Result<()>)
      requires Valid()
      modifies this`window, backend.disk
      ensures Valid() && kvsMap == old(kvsMap)
      ensures window == if old(window) == [] then [] else Advance(old(window), 0, Entry(kvsMap))
      ensures r == if old(window) == [] || Entry(kvsMap).Some? then Ok(()) else Err(JsonGeneratorError)
      ensures old(window) == [] ==> backend.disk.files == old(backend.disk.files)
    {
      if backend.snapshotMaxCount == 0 {
        return Ok(());
      }
      ghost var files0 := backend.disk.files;
      FlushKeepsRepresentation(backend.text, files0, window, kvsMap, order);
      r := backend.Flush(kvsMap, order);
      ghost var steps := FlushSteps(backend.text, files0, backend.snapshotMaxCount, kvsMap, order);
      assert steps[..|steps|] == steps;
      window := Advance(window, 0, Entry(kvsMap));
    }

    method SnapshotCount() returns (count: nat)
      requires Valid()
      ensures count == Leading(window)
    {
      CountsTheRow(backend.text, backend.disk.files, window);
      count := backend.SnapshotCount();
    }

    /** Takes a map out of the window; on any error the memory stays as it is. */
    method SnapshotRestore(id: nat) returns (r: Result<()>)
      requires Valid()
      modifies this`kvsMap
      ensures Valid()
      ensures r == if id == 0 || id > Leading(window) then Err(InvalidSnapshotId)
                   else if id == Leading(window) then Err(FileNotFound) else Ok(())
      ensures kvsMap == if r.Ok? then RoundedMap(window[id].value) else old(kvsMap)
    {
      CountsTheRow(backend.text, backend.disk.files, window);
      LoadsTheEntry(backend.text, backend.disk.files, window, id);
      var restored := backend.SnapshotRestore(id);
      match restored
      case Ok(m) =>
        kvsMap := m;
        r := Ok(());
      case Err(e) =>
        r := Err(e);
    }

    method Execute(c: Command) returns (reply: Reply)
      requires Valid()
      modifies this, backend.disk
      ensures Valid()
      ensures (Abstract(), reply) == Perform(old(Abstract()), defaultsMap, c)
      ensures var m, row := old(kvsMap), old(window);
              match c
              case Set(key, value) => kvsMap == m[key := value] && reply == Success
              case Remove(key) =>
                kvsMap == m - {key} && reply == if key in m then Success else Refused(KeyNotFound)
              case Reset => kvsMap == map[] && reply == Success
              case ResetKey(key) =>
                if key in defaultsMap then kvsMap == m - {key} && reply == Success
                else kvsMap == m && reply == Refused(KeyDefaultNotFound)
              case Get(key) =>
                && kvsMap == m
                && reply == if key in m then Found(m[key])
                            else if key in defaultsMap then Found(defaultsMap[key]) else Refused(KeyNotFound)
              case Flush(_) =>
                && kvsMap == m
                && reply == if row == [] || FiniteValue(Object(m)) then Success else Refused(JsonGeneratorError)
              case Count => kvsMap == m && reply == Counted(Leading(row))
              case Restore(id) =>
                if 1 <= id < Leading(row) then kvsMap == RoundedMap(row[id].value) && reply == Success
                else
                  && kvsMap == m
                  && reply == Refused(if 1 <= id == Leading(row) then FileNotFound else InvalidSnapshotId)
      ensures window == if c.Flush? && old(window) != []
                        then Advance(old(window), 0, if FiniteValue(Object(kvsMap)) then Some(kvsMap) else None)
                        else old(window)
    {
      var r: Result<()> := Ok(());
      match c {
        case Set(key, value) => SetValue(key, value);
        case Remove(key) =>
          assert key !in kvsMap ==> kvsMap - {key} == kvsMap;
          r := RemoveKey(key);
        case Reset => Reset();
        case ResetKey(key) => r := ResetKey(key);
        case Get(key) =>
          var v := GetValue(key);
          return match v case Ok(x) => Found(x) case Err(e) => Refused(e);
        case Flush(order) => r := Flush(order);
        case Count =>
          var n := SnapshotCount();
          return Counted(n);
        case Restore(id) => r := SnapshotRestore(id);
      }
      reply := match r case Ok(_) => Success case Err(e) => Refused(e);
    }

    /** The refinement: any run of the store on its files gives the replies, the memory and the
        snapshots of the abstract store. */
    method ExecuteAll(cs: seq<Command>) returns (replies: seq<Reply>)
      requires Valid()
      modifies this, backend.disk
      ensures Valid()
      ensures (Abstract(), replies) == PerformAll(old(Abstract()), defaultsMap, cs)
    {
      replies := [];
      for i := 0 to |cs|
        invariant Valid()
        invariant (Abstract(), replies) == PerformAll(old(Abstract()), defaultsMap, cs[..i])
      {
        var reply := Execute(cs[i]);
        replies := replies + [reply];
        assert cs[..i + 1][..i] == cs[..i];
      }
      assert cs[..|cs|] == cs;
    }
  }

  // ---------- From an empty directory

  /** Slot k loads the k-th newest of these maps, and nothing else is on disk. */
  ghost predicate HoldsLatest(text: TextCodec, files: Files, max: nat, maps: seq<KvsMap>) {
    && (forall f: File :: f in files <==> f.slot < Least(|maps|, max))
    && forall k: nat :: LoadSlot(text, files, k) == LatestOrMissing(maps, max, k)
  }

  function LatestOrMissing(maps: seq<KvsMap>, max: nat, k: nat): Result<KvsMap> {
    if k < |maps| && k < max then Ok(RoundedMap(maps[|maps| - 1 - k])) else Err(FileNotFound)
  }

  lemma LatestOnFiles(text: TextCodec, files: Files, window: seq<Option<KvsMap>>, maps: seq<KvsMap>)
    requires Represents(text, files, window) && ShowsLatest(window, maps)
    ensures HoldsLatest(text, files, |window|, maps)
  {
    forall f: File ensures f in files <==> f.slot < Least(|maps|, |window|) {
      if f.slot < |window| {
        assert SlotHolds(text, files, f.slot, window[f.slot]);
        assert f == File(f.slot, f.kind) && (f.kind.Json? || f.kind.Hash?);
      }
    }
    forall k: nat ensures LoadSlot(text, files, k) == LatestOrMissing(maps, |window|, k) {
      LoadsTheEntry(text, files, window, k);
    }
  }

  /** The history theorem for the store on its files: a new store on an empty directory, any run of
      operations, then the snapshot count and one restore. If every flushed map could be printed, the
      files hold exactly the latest of them, and count and restore answer accordingly. */
  method RunFromEmpty(text: TextCodec, max: nat, initial: KvsMap, defaults: KvsMap, cs: seq<Command>, id: nat)
    returns (files: Files, count: nat, restored: Result<KvsMap>)
    requires text.RoundTrips() && text.PrintsFinite()
    ensures var maps := FlushedMaps(Store(initial, Absent(max)), defaults, cs);
            (forall m | m in maps :: FiniteValue(Object(m))) ==>
              && HoldsLatest(text, files, max, maps)
              && count == Least(|maps|, max)
              && restored == if 1 <= id <= count then LatestOrMissing(maps, max, id) else Err(InvalidSnapshotId)
  {
    ghost var start := Store(initial, Absent(max));
    ghost var maps := FlushedMaps(start, defaults, cs);
    EmptyDirectory(text, max);
    var disk := new Disk(map[], None);
    var backend := new JsonBackend(disk, max, text);
    var store := new Kvs(backend, initial, defaults, Absent(max));
    var _ := store.ExecuteAll(cs);
    ghost var window := store.window;
    files := disk.files;
    count := store.SnapshotCount();
    var r := store.SnapshotRestore(id);
    restored := match r case Ok(_) => Ok(store.kvsMap) case Err(e) => Err(e);
    if forall m | m in maps :: FiniteValue(Object(m)) {
      RunKeepsHistory(initial, defaults, max, cs);
      LatestOnFiles(text, files, window, maps);
      RestoresTheLatest(window, maps, id);
    }
  }

  /** The map that a restore takes out of the window, or why it refuses. */
  function RestoredMap(window: seq<Option<KvsMap>>, id: nat): Result<KvsMap> {
    if id == 0 || id > Leading(window) then Err(InvalidSnapshotId)
    else if id == Leading(window) then Err(FileNotFound)
    else Ok(RoundedMap(window[id].value))
  }

  lemma RestoresTheLatest(window: seq<Option<KvsMap>>, maps: seq<KvsMap>, id: nat)
    requires ShowsLatest(window, maps)
    ensures var count := Least(|maps|, |window|);
            && Leading(window) == count
            && RestoredMap(window, id)
               == if 1 <= id <= count then LatestOrMissing(maps, |window|, id) else Err(InvalidSnapshotId)
  {
    CountOfLatest(window, maps);
  }
}
