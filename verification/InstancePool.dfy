/** Opening instances of the Rust store through the shared pool: a build looks its instance up
    under the pool lock, loads the files without it, and enters the new instance under the lock
    again. */
module InstancePool {
  import opened Values

  const MAX_INSTANCES: nat := 10

  datatype Mode = Ignored | Optional | Required

  /** Backends as comparable values. */
  datatype Backend = Backend(dir: string, snapshotMaxCount: nat)

  const DEFAULT_BACKEND := Backend("", 3)

  datatype Parameters = Parameters(instanceId: nat, defaults: Mode, kvsLoad: Mode, backend: Backend)

  /** What a builder was told; `None` where the caller left the choice to the builder. */
  datatype Options = Options(instanceId: nat, defaults: Option<Mode>, kvsLoad: Option<Mode>, backend: Option<Backend>)

  /** A pool entry, which is also what a handle refers to. `D` is the shared data object. */
  datatype Inner<D> = Inner(parameters: Parameters, data: D)

  function OrElse<T>(o: Option<T>, default: T): T {
    if o.Some? then o.value else default
  }

  /** The instance's parameters equal each option that was set. */
  predicate Agrees(o: Options, p: Parameters) {
    && o.instanceId == p.instanceId
    && (o.defaults.Some? ==> o.defaults.value == p.defaults)
    && (o.kvsLoad.Some? ==> o.kvsLoad.value == p.kvsLoad)
    && (o.backend.Some? ==> o.backend.value == p.backend)
  }

  function Chosen(o: Options): (p: Parameters)
    ensures Agrees(o, p)
    ensures o.defaults.None? ==> p.defaults == Optional
    ensures o.kvsLoad.None? ==> p.kvsLoad == Optional
    ensures o.backend.None? ==> p.backend == Backend("", 3)
  {
    Parameters(o.instanceId, OrElse(o.defaults, Optional), OrElse(o.kvsLoad, Optional),
               OrElse(o.backend, DEFAULT_BACKEND))
  }

  /** A load under a mode: skipped, tolerant of a missing file, or strict. */
  function LoadUnder(mode: Mode, loaded: Result<KvsMap>): Result<KvsMap> {
    match mode
    case Ignored => Ok(map[])
    case Optional => if loaded == Err(FileNotFound) then Ok(map[]) else loaded
    case Required => loaded
  }

  /** Both loads of a build, defaults first. */
  function LoadBoth(p: Parameters, defaults: Result<KvsMap>, kvs: Result<KvsMap>): Result<(KvsMap, KvsMap)> {
    match LoadUnder(p.defaults, defaults)
    case Err(e) => Err(e)
    case Ok(d) =>
      match LoadUnder(p.kvsLoad, kvs)
      case Err(e) => Err(e)
      case Ok(m) => Ok((m, d))
  }

  /** The lookup under the lock: an existing instance, none yet, or a refusal. */
  function Find<D>(slots: seq<Option<Inner<D>>>, o: Options): Result<Option<Inner<D>>> {
    if o.instanceId >= |slots| then Err(InvalidInstanceId)
    else match slots[o.instanceId]
      case None => Ok(None)
      case Some(inner) =>
        if Agrees(o, inner.parameters) then Ok(Some(inner)) else Err(InstanceParametersMismatch)
  }

  // ---------- One build at a time

  /** A file's map, or an empty one where the mode does not ask for the file or tolerates that it is
      missing. */
  method LoadFile(mode: Mode, loaded: Result<KvsMap>) returns (r: Result<KvsMap>)
    ensures r == LoadUnder(mode, loaded)
    ensures loaded.Err? && !mode.Ignored? && !(mode.Optional? && loaded.error == FileNotFound) ==>
              r == Err(loaded.error)
    ensures loaded.Err? && (mode.Ignored? || (mode.Optional? && loaded.error == FileNotFound)) ==> r == Ok(map[])
    ensures loaded.Ok? ==> r == Ok(if mode.Ignored? then map[] else loaded.value)
  {
    match mode {
      case Ignored => r := Ok(map[]);
      case Optional =>
        match loaded {
          case Ok(m) => r := Ok(m);
          case Err(e) =>
            if e == FileNotFound {
              r := Ok(map[]);
            } else {
              r := Err(e);
            }
        }
      case Required =>
        match loaded {
          case Ok(m) => r := Ok(m);
          case Err(e) => r := Err(e);
        }
    }
  }

  class KvsData {
    var kvsMap: KvsMap
    var defaultsMap: KvsMap

    constructor (kvsMap: KvsMap, defaultsMap: KvsMap)
      ensures this.kvsMap == kvsMap && this.defaultsMap == defaultsMap
    {
      this.kvsMap, this.defaultsMap := kvsMap, defaultsMap;
    }
  }

  class Pool {
    var slots: seq<Option<Inner<KvsData>>>

    /** Slot i is empty or holds an instance with ID i. */
    ghost predicate Valid()
      reads this
    {
      && |slots| == MAX_INSTANCES
      && forall i :: 0 <= i < |slots| && slots[i].Some? ==> slots[i].value.parameters.instanceId == i
    }

    constructor ()
      ensures Valid() && forall i :: 0 <= i < MAX_INSTANCES ==> slots[i] == None
    {
      slots := seq(MAX_INSTANCES, _ => None);
    }
  }

  class KvsBuilder {
    var instanceId: nat
    var defaults: Option<Mode>
    var kvsLoad: Option<Mode>
    var backend: Option<Backend>

    function Told(): Options
      reads this
    {
      Options(instanceId, defaults, kvsLoad, backend)
    }

    constructor (instanceId: nat)
      ensures Told() == Options(instanceId, None, None, None)
    {
      this.instanceId, defaults, kvsLoad, backend := instanceId, None, None, None;
    }

    method SetDefaults(mode: Mode)
      modifies this
      ensures Told() == old(Told()).(defaults := Some(mode))
    {
      defaults := Some(mode);
    }

    method SetKvsLoad(mode: Mode)
      modifies this
      ensures Told() == old(Told()).(kvsLoad := Some(mode))
    {
      kvsLoad := Some(mode);
    }

    method SetBackend(backend: Backend)
      modifies this
      ensures Told() == old(Told()).(backend := Some(backend))
    {
      this.backend := Some(backend);
    }

    method CompareParameters(other: Parameters) returns (same: bool)
      ensures same <==> Agrees(Told(), other)
      ensures same <==>
                && instanceId == other.instanceId
                && (defaults == None || defaults == Some(other.defaults))
                && (kvsLoad == None || kvsLoad == Some(other.kvsLoad))
                && (backend == None || backend == Some(other.backend))
    {
      if instanceId != other.instanceId {
        same := false;
      } else if defaults.Some? && defaults.value != other.defaults {
        same := false;
      } else if kvsLoad.Some? && kvsLoad.value != other.kvsLoad {
        same := false;
      } else if backend.Some? && backend.value != other.backend {
        same := false;
      } else {
        same := true;
      }
    }

    /** A build that nothing interrupts. `defaultsFile` and `kvsFile` are what the backend's loads
        return. A failed build leaves the pool as it was; a build of an open instance shares its data
        object; any other build enters a new object in its own slot only. */
    method Build(pool: Pool, defaultsFile: Result<KvsMap>, kvsFile: Result<KvsMap>) returns (r: Result<Inner<KvsData>>)
      requires pool.Valid()
      modifies pool
      ensures pool.Valid()
      ensures instanceId >= 10 ==> r == Err(InvalidInstanceId)
      ensures instanceId < 10 && old(pool.slots)[instanceId].Some? ==>
                var inner := old(pool.slots)[instanceId].value;
                r == if && (defaults == None || defaults == Some(inner.parameters.defaults))
                        && (kvsLoad == None || kvsLoad == Some(inner.parameters.kvsLoad))
                        && (backend == None || backend == Some(inner.parameters.backend))
                     then Ok(inner) else Err(InstanceParametersMismatch)
      ensures instanceId < 10 && old(pool.slots)[instanceId].None? ==>
                var defaultsMode := if defaults.Some? then defaults.value else Optional;
                var kvsMode := if kvsLoad.Some? then kvsLoad.value else Optional;
                if && defaultsFile.Err? && !defaultsMode.Ignored?
                   && !(defaultsMode.Optional? && defaultsFile.error == FileNotFound)
                then r == Err(defaultsFile.error)
                else if && kvsFile.Err? && !kvsMode.Ignored?
                        && !(kvsMode.Optional? && kvsFile.error == FileNotFound)
                then r == Err(kvsFile.error)
                else
                  && r.Ok? && pool.slots == old(pool.slots)[instanceId := Some(r.value)]
                  && r.value.parameters == Parameters(instanceId, defaultsMode, kvsMode,
                                                      if backend.Some? then backend.value else Backend("", 3))
                  && r.value.data.kvsMap == (if kvsMode.Ignored? || kvsFile.Err? then map[] else kvsFile.value)
                  && r.value.data.defaultsMap ==
                       (if defaultsMode.Ignored? || defaultsFile.Err? then map[] else defaultsFile.value)
      ensures r.Ok? ==> Agrees(Told(), r.value.parameters)
      ensures r.Err? ==> pool.slots == old(pool.slots)
      ensures match Find(old(pool.slots), Told())
              case Err(e) => r == Err(e)
              case Ok(Some(inner)) => r == Ok(inner) && pool.slots == old(pool.slots)
              case Ok(None) =>
                match LoadBoth(Chosen(Told()), defaultsFile, kvsFile)
                case Err(e) => r == Err(e)
                case Ok((m, d)) =>
                  && r.Ok? && fresh(r.value.data) && r.value.data.kvsMap == m && r.value.data.defaultsMap == d
                  && r.value.parameters == Chosen(Told())
                  && pool.slots == old(pool.slots)[instanceId := Some(r.value)]
    {
      if instanceId >= |pool.slots| {
        return Err(InvalidInstanceId);
      }
      var entry := pool.slots[instanceId];
      if entry.Some? {
        var same := CompareParameters(entry.value.parameters);
        if !same {
          return Err(InstanceParametersMismatch);
        }
        return Ok(entry.value);
      }

      var parameters := Parameters(instanceId, OrElse(defaults, Optional), OrElse(kvsLoad, Optional),
                                   OrElse(backend, DEFAULT_BACKEND));
      var defaultsMap := LoadFile(parameters.defaults, defaultsFile);
      if defaultsMap.Err? {
        return Err(defaultsMap.error);
      }
      var kvsMap := LoadFile(parameters.kvsLoad, kvsFile);
      if kvsMap.Err? {
        return Err(kvsMap.error);
      }
      var data := new KvsData(kvsMap.value, defaultsMap.value);
      var inner := Inner(parameters, data);
      pool.slots := pool.slots[instanceId := Some(inner)];
      r := Ok(inner);
    }
  }

  // ---------- Builds that interleave

  type Thread = nat

  /** A build between its lookup and its insertion: loading, or with its new data object made. */
  datatype Pending = Loading(options: Options) | Ready(options: Options, inner: Inner<nat>)

  datatype Handle = Handle(options: Options, inner: Inner<nat>)

  /** Data objects are numbered in order of creation. `entered` and `handles` record the inserted
      instances and the successful builds. */
  datatype World = World(
    slots: seq<Option<Inner<nat>>>,
    pending: map<Thread, Pending>,
    nextData: nat,
    entered: seq<Inner<nat>>,
    handles: seq<Handle>)

  datatype Event =
    | Lookup(t: Thread, options: Options)
    | Load(t: Thread, defaultsFile: Result<KvsMap>, kvsFile: Result<KvsMap>)
    | Insert(t: Thread)

  predicate Enabled(w: World, e: Event) {
    match e
    case Lookup(t, _) => t !in w.pending
    case Load(t, _, _) => t in w.pending && w.pending[t].Loading?
    case Insert(t) => t in w.pending && w.pending[t].Ready? && w.pending[t].options.instanceId < |w.slots|
  }

  function Next(w: World, e: Event): World
    requires Enabled(w, e)
  {
    match e
    case Lookup(t, o) =>
      (match Find(w.slots, o)
       case Err(_) => w
       case Ok(Some(inner)) => w.(handles := w.handles + [Handle(o, inner)])
       case Ok(None) => w.(pending := w.pending[t := Loading(o)]))
    case Load(t, defaultsFile, kvsFile) =>
      var o := w.pending[t].options;
      if LoadBoth(Chosen(o), defaultsFile, kvsFile).Err? then w.(pending := w.pending - {t})
      else w.(pending := w.pending[t := Ready(o, Inner(Chosen(o), w.nextData))], nextData := w.nextData + 1)
    case Insert(t) =>
      var Ready(o, inner) := w.pending[t];
      w.(slots := w.slots[o.instanceId := Some(inner)], pending := w.pending - {t},
         entered := w.entered + [inner], handles := w.handles + [Handle(o, inner)])
  }

  function Empty(): World {
    World(seq(MAX_INSTANCES, _ => None), map[], 0, [], [])
  }

  /** What every interleaving keeps. */
  ghost predicate Inv(w: World) {
    SlotsInv(w) && PendingInv(w) && EnteredInv(w) && HandlesInv(w)
  }

  ghost predicate SlotsInv(w: World) {
    && |w.slots| == MAX_INSTANCES
    && (forall i :: 0 <= i < |w.slots| && w.slots[i].Some? ==>
          w.slots[i].value.parameters.instanceId == i && w.slots[i].value in w.entered)
    && forall t | t in w.pending :: w.pending[t].options.instanceId < MAX_INSTANCES
  }

  /** A build that is ready has its own data object, not entered yet. */
  ghost predicate PendingInv(w: World) {
    && (forall t | t in w.pending && w.pending[t].Ready? ::
          && w.pending[t].inner.parameters == Chosen(w.pending[t].options)
          && w.pending[t].inner.data < w.nextData
          && forall i :: 0 <= i < |w.entered| ==> w.entered[i].data != w.pending[t].inner.data)
    && (forall t, u | t in w.pending && u in w.pending && w.pending[t].Ready? && w.pending[u].Ready? && t != u ::
          w.pending[t].inner.data != w.pending[u].inner.data)
  }

  ghost predicate EnteredInv(w: World) {
    && (forall i :: 0 <= i < |w.entered| ==> w.entered[i].data < w.nextData)
    && (forall i, j :: 0 <= i < j < |w.entered| ==> w.entered[i].data != w.entered[j].data)
  }

  ghost predicate HandlesInv(w: World) {
    && (forall i :: 0 <= i < |w.entered| ==> HasHandle(w, w.entered[i]))
    && (forall h | h in w.handles :: Agrees(h.options, h.inner.parameters) && h.inner in w.entered)
  }

  ghost predicate HasHandle(w: World, inner: Inner<nat>) {
    exists h :: h in w.handles && h.inner == inner
  }

  lemma EmptyHoldsInv()
    ensures Inv(Empty())
  {
  }

  /** Every event keeps the invariant, never empties a slot, and changes the pool only when it
      inserts; so a build that fails leaves the pool as it was. */
  lemma NextKeepsInv(w: World, e: Event)
    requires Inv(w) && Enabled(w, e)
    ensures Inv(Next(w, e))
    ensures forall i :: 0 <= i < |w.slots| && w.slots[i].Some? ==> Next(w, e).slots[i].Some?
    ensures !e.Insert? ==> Next(w, e).slots == w.slots
  {
    match e
    case Lookup(t, o) => LookupKeepsInv(w, t, o);
    case Load(t, d, m) => LoadKeepsInv(w, t, d, m);
    case Insert(t) => InsertKeepsInv(w, t);
  }

  lemma LookupKeepsInv(w: World, t: Thread, o: Options)
    requires Inv(w) && Enabled(w, Lookup(t, o))
    ensures Inv(Next(w, Lookup(t, o)))
  {
    var w' := Next(w, Lookup(t, o));
    HandlesStay(w, w');
  }

  lemma LoadKeepsInv(w: World, t: Thread, d: Result<KvsMap>, m: Result<KvsMap>)
    requires Inv(w) && Enabled(w, Load(t, d, m))
    ensures Inv(Next(w, Load(t, d, m)))
  {
    HandlesStay(w, Next(w, Load(t, d, m)));
  }

  lemma InsertKeepsInv(w: World, t: Thread)
    requires Inv(w) && Enabled(w, Insert(t))
    ensures Inv(Next(w, Insert(t)))
  {
    InsertKeepsSlots(w, t);
    InsertKeepsPending(w, t);
    InsertKeepsEntered(w, t);
    InsertKeepsHandles(w, t);
  }

  lemma InsertKeepsSlots(w: World, t: Thread)
    requires SlotsInv(w) && PendingInv(w) && Enabled(w, Insert(t))
    ensures SlotsInv(Next(w, Insert(t)))
  {
    assert w.pending[t].inner in Next(w, Insert(t)).entered;
  }

  lemma InsertKeepsPending(w: World, t: Thread)
    requires PendingInv(w) && Enabled(w, Insert(t))
    ensures PendingInv(Next(w, Insert(t)))
  {
  }

  lemma InsertKeepsEntered(w: World, t: Thread)
    requires PendingInv(w) && EnteredInv(w) && Enabled(w, Insert(t))
    ensures EnteredInv(Next(w, Insert(t)))
  {
  }

  lemma InsertKeepsHandles(w: World, t: Thread)
    requires PendingInv(w) && HandlesInv(w) && Enabled(w, Insert(t))
    ensures HandlesInv(Next(w, Insert(t)))
  {
    var w' := Next(w, Insert(t));
    HandlesStay(w, w');
    assert w'.handles[|w.handles|].inner == w.pending[t].inner;
    assert HasHandle(w', w.pending[t].inner);
    assert w.pending[t].inner in w'.entered;
    assert forall x :: x in w.entered ==> x in w'.entered;
  }

  lemma HandlesStay(w: World, w': World)
    requires w.handles <= w'.handles
    ensures forall inner :: HasHandle(w, inner) ==> HasHandle(w', inner)
  {
  }

  // ---------- A build that nothing interrupts, as events

  /** The lookup alone: a handle of the instance that is there, a refusal without a trace, or a build that
      goes on to load. */
  lemma LookupAlone(w: World, t: Thread, o: Options)
    requires |w.slots| == MAX_INSTANCES && t !in w.pending
    ensures var w' := Next(w, Lookup(t, o));
            if o.instanceId >= 10 then w' == w
            else if w.slots[o.instanceId].None? then w' == w.(pending := w.pending[t := Loading(o)])
            else
              var inner := w.slots[o.instanceId].value;
              if && inner.parameters.instanceId == o.instanceId
                 && (o.defaults == None || o.defaults == Some(inner.parameters.defaults))
                 && (o.kvsLoad == None || o.kvsLoad == Some(inner.parameters.kvsLoad))
                 && (o.backend == None || o.backend == Some(inner.parameters.backend))
              then w' == w.(handles := w.handles + [Handle(o, inner)]) else w' == w
  {
  }

  /** Load and insertion: a load that fails leaves no trace; otherwise the slot gets the new instance with
      its own data object, and so does the handle. */
  lemma LoadAndInsertAlone(w: World, t: Thread, o: Options, defaultsFile: Result<KvsMap>, kvsFile: Result<KvsMap>)
    requires |w.slots| == MAX_INSTANCES && t !in w.pending && o.instanceId < 10 && w.slots[o.instanceId].None?
    ensures var defaultsMode := if o.defaults.Some? then o.defaults.value else Optional;
            var kvsMode := if o.kvsLoad.Some? then o.kvsLoad.value else Optional;
            var loaded := Next(Next(w, Lookup(t, o)), Load(t, defaultsFile, kvsFile));
            if || (&& defaultsFile.Err? && !defaultsMode.Ignored?
                   && !(defaultsMode.Optional? && defaultsFile.error == FileNotFound))
               || (&& kvsFile.Err? && !kvsMode.Ignored? && !(kvsMode.Optional? && kvsFile.error == FileNotFound))
            then loaded == w
            else
              && Enabled(loaded, Insert(t)) && loaded.slots == w.slots
              && var backend := if o.backend.Some? then o.backend.value else Backend("", 3);
                 var inner := Inner(Parameters(o.instanceId, defaultsMode, kvsMode, backend), w.nextData);
                 Next(loaded, Insert(t)) ==
                   w.(slots := w.slots[o.instanceId := Some(inner)], nextData := w.nextData + 1,
                      entered := w.entered + [inner], handles := w.handles + [Handle(o, inner)])
  {
    var found := Next(w, Lookup(t, o));
    assert found.pending - {t} == w.pending;
    var loaded := Next(found, Load(t, defaultsFile, kvsFile));
    assert loaded.pending - {t} == w.pending;
  }

  // ---------- Runs

  /** The states of a run, one event apart. */
  ghost predicate IsRun(ws: seq<World>, es: seq<Event>) {
    && |ws| == |es| + 1 && ws[0] == Empty()
    && forall i: nat :: i < |es| ==> IsStep(ws[i], es[i], ws[i + 1])
  }

  predicate IsStep(w: World, e: Event, w': World) {
    Enabled(w, e) && w' == Next(w, e)
  }

  lemma {:induction false} RunKeepsInv(ws: seq<World>, es: seq<Event>, n: nat)
    requires IsRun(ws, es) && n <= |es|
    ensures Inv(ws[n])
  {
    if n == 0 {
      EmptyHoldsInv();
    } else {
      RunKeepsInv(ws, es, n - 1);
      assert IsStep(ws[n - 1], es[n - 1], ws[n]);
      NextKeepsInv(ws[n - 1], es[n - 1]);
    }
  }

  /** All handles of the instance refer to one data object. */
  ghost predicate Shared(w: World, id: nat) {
    forall h, g | h in w.handles && g in w.handles && h.options.instanceId == g.options.instanceId == id ::
      h.inner.data == g.inner.data
  }

  // ---------- When handles are shared

  predicate Filled(w: World, id: nat) {
    id < |w.slots| && w.slots[id].Some?
  }

  predicate PendingFor(w: World, t: Thread, id: nat) {
    t in w.pending && w.pending[t].options.instanceId == id
  }

  predicate InsertsFor(w: World, e: Event, id: nat) {
    e.Insert? && PendingFor(w, e.t, id)
  }

  ghost predicate OnceIn(entered: seq<Inner<nat>>, id: nat) {
    forall i, j :: 0 <= i < j < |entered| && entered[i].parameters.instanceId == id ==>
      entered[j].parameters.instanceId != id
  }

  lemma SharedIffEnteredOnce(w: World, id: nat)
    requires Inv(w)
    ensures Shared(w, id) <==> OnceIn(w.entered, id)
  {
  }

  /** Every insertion of the instance up to event n finds its slot still empty: what the source
      does not look at. */
  ghost predicate InsertsFindEmpty(ws: seq<World>, es: seq<Event>, n: nat, id: nat)
    requires n <= |es| < |ws|
  {
    forall i :: 0 <= i < n && InsertsFor(ws[i], es[i], id) ==> !Filled(ws[i], id)
  }

  ghost predicate EnteredFills(w: World, id: nat) {
    forall i :: 0 <= i < |w.entered| && w.entered[i].parameters.instanceId == id ==> Filled(w, id)
  }

  lemma OneMoreIn(entered: seq<Inner<nat>>, inner: Inner<nat>, id: nat)
    ensures OnceIn(entered + [inner], id) <==>
              && OnceIn(entered, id)
              && (inner.parameters.instanceId == id ==>
                    forall i :: 0 <= i < |entered| ==> entered[i].parameters.instanceId != id)
  {
    var longer := entered + [inner];
    assert forall i :: 0 <= i < |entered| ==> longer[i] == entered[i];
    assert longer[|entered|] == inner;
  }

  lemma OneMoreFills(w: World, e: Event, id: nat)
    requires Inv(w) && Enabled(w, e) && EnteredFills(w, id)
    ensures EnteredFills(Next(w, e), id)
  {
  }

  lemma OneMoreEntered(w: World, e: Event, id: nat)
    requires Inv(w) && Enabled(w, e) && EnteredFills(w, id)
    ensures OnceIn(Next(w, e).entered, id) <==> OnceIn(w.entered, id) && (InsertsFor(w, e, id) ==> !Filled(w, id))
  {
    if e.Insert? {
      OneMoreIn(w.entered, w.pending[e.t].inner, id);
    }
  }

  lemma OneMoreFindsEmpty(ws: seq<World>, es: seq<Event>, n: nat, id: nat)
    requires n < |es| < |ws|
    ensures InsertsFindEmpty(ws, es, n + 1, id) <==>
              InsertsFindEmpty(ws, es, n, id) && (InsertsFor(ws[n], es[n], id) ==> !Filled(ws[n], id))
  {
  }

  lemma {:induction false} EnteredOnceIffFoundEmpty(ws: seq<World>, es: seq<Event>, n: nat, id: nat)
    requires IsRun(ws, es) && n <= |es|
    ensures EnteredFills(ws[n], id)
    ensures OnceIn(ws[n].entered, id) <==> InsertsFindEmpty(ws, es, n, id)
  {
    if n > 0 {
      EnteredOnceIffFoundEmpty(ws, es, n - 1, id);
      RunKeepsInv(ws, es, n - 1);
      assert IsStep(ws[n - 1], es[n - 1], ws[n]);
      OneMoreFills(ws[n - 1], es[n - 1], id);
      OneMoreEntered(ws[n - 1], es[n - 1], id);
      OneMoreFindsEmpty(ws, es, n - 1, id);
    }
  }

  /** Events i < j insert the instance, and the build that inserts at j had looked the instance up
      before the insertion at i. */
  ghost predicate RacingInserts(ws: seq<World>, es: seq<Event>, id: nat, i: nat, j: nat)
    requires |es| < |ws|
  {
    && i < j < |es| && InsertsFor(ws[i], es[i], id) && es[j].Insert?
    && forall k :: i <= k <= j ==> PendingFor(ws[k], es[j].t, id)
  }

  lemma {:induction false} FilledStays(ws: seq<World>, es: seq<Event>, i: nat, j: nat, id: nat)
    requires IsRun(ws, es) && i <= j <= |es| && Filled(ws[i], id)
    ensures Filled(ws[j], id)
    decreases j
  {
    if i < j {
      FilledStays(ws, es, i, j - 1, id);
      RunKeepsInv(ws, es, j - 1);
      assert IsStep(ws[j - 1], es[j - 1], ws[j]);
      NextKeepsInv(ws[j - 1], es[j - 1]);
    }
  }

  /** A build that is pending although the slot is filled was pending when the slot was filled. */
  lemma {:induction false} FilledMeanwhile(ws: seq<World>, es: seq<Event>, j: nat, t: Thread, id: nat)
    returns (i: nat)
    requires IsRun(ws, es) && j <= |es| && Filled(ws[j], id) && PendingFor(ws[j], t, id)
    ensures i < j && InsertsFor(ws[i], es[i], id)
    ensures forall k :: i <= k <= j ==> PendingFor(ws[k], t, id)
  {
    var w, e := ws[j - 1], es[j - 1];
    assert IsStep(w, e, ws[j]);
    if Filled(w, id) {
      assert PendingFor(w, t, id);
      i := FilledMeanwhile(ws, es, j - 1, t, id);
    } else {
      i := j - 1;
    }
  }

  lemma RaceFindsFilled(ws: seq<World>, es: seq<Event>, id: nat, i: nat, j: nat)
    requires IsRun(ws, es) && RacingInserts(ws, es, id, i, j)
    ensures InsertsFor(ws[j], es[j], id) && Filled(ws[j], id)
  {
    RunKeepsInv(ws, es, i);
    assert IsStep(ws[i], es[i], ws[i + 1]);
    FilledStays(ws, es, i + 1, j, id);
  }

  /** The exact condition: all handles of an instance share one data object if and only if no two
      builds of it that both insert overlap, which is if and only if every insertion finds the slot
      empty. */
  lemma SharedIffNoRace(ws: seq<World>, es: seq<Event>, id: nat)
    requires IsRun(ws, es)
    ensures Shared(ws[|es|], id) <==> InsertsFindEmpty(ws, es, |es|, id)
    ensures Shared(ws[|es|], id) <==> forall i, j :: !RacingInserts(ws, es, id, i, j)
  {
    RunKeepsInv(ws, es, |es|);
    SharedIffEnteredOnce(ws[|es|], id);
    EnteredOnceIffFoundEmpty(ws, es, |es|, id);
    forall i: nat, j: nat | RacingInserts(ws, es, id, i, j)
      ensures !InsertsFindEmpty(ws, es, |es|, id)
    {
      RaceFindsFilled(ws, es, id, i, j);
    }
    if j: nat :| j < |es| && InsertsFor(ws[j], es[j], id) && Filled(ws[j], id) {
      var i := FilledMeanwhile(ws, es, j, es[j].t, id);
      assert RacingInserts(ws, es, id, i, j);
    }
  }

  /** No two builds of the instance are between lookup and insertion at once. */
  ghost predicate NoOverlap(w: World, id: nat) {
    forall t, u | PendingFor(w, t, id) && PendingFor(w, u, id) :: t == u
  }

  lemma RacersDiffer(ws: seq<World>, es: seq<Event>, id: nat, i: nat, j: nat)
    requires IsRun(ws, es) && RacingInserts(ws, es, id, i, j)
    ensures es[i].t != es[j].t && PendingFor(ws[i], es[i].t, id) && PendingFor(ws[i], es[j].t, id)
  {
    assert IsStep(ws[i], es[i], ws[i + 1]) && PendingFor(ws[i + 1], es[j].t, id);
  }

  /** So in a run where no two builds of one instance overlap between lookup and insertion, all
      handles of that instance share one data object. */
  lemma NoOverlapShares(ws: seq<World>, es: seq<Event>, id: nat)
    requires IsRun(ws, es)
    requires forall i :: 0 <= i <= |es| ==> NoOverlap(ws[i], id)
    ensures Shared(ws[|es|], id)
  {
    SharedIffNoRace(ws, es, id);
    if i: nat, j: nat :| RacingInserts(ws, es, id, i, j) {
      RacersDiffer(ws, es, id, i, j);
    }
  }

  /** Every handle of every run agrees with each option its builder set, and each slot holds its own
      instance or none. */
  lemma HandlesAgree(ws: seq<World>, es: seq<Event>, n: nat)
    requires IsRun(ws, es) && n <= |es|
    ensures forall h | h in ws[n].handles ::
              && h.options.instanceId == h.inner.parameters.instanceId
              && (h.options.defaults == None || h.options.defaults == Some(h.inner.parameters.defaults))
              && (h.options.kvsLoad == None || h.options.kvsLoad == Some(h.inner.parameters.kvsLoad))
              && (h.options.backend == None || h.options.backend == Some(h.inner.parameters.backend))
    ensures forall i :: 0 <= i < |ws[n].slots| && ws[n].slots[i].Some? ==>
              ws[n].slots[i].value.parameters.instanceId == i
  {
    RunKeepsInv(ws, es, n);
  }

  /** With overlap, sharing can fail: two builds of instance 0 that both look up before either
      inserts end with two data objects. */
  lemma OverlapCanSplit() returns (ws: seq<World>, es: seq<Event>)
    ensures IsRun(ws, es) && !Shared(ws[|es|], 0)
  {
    var o := Options(0, Some(Ignored), Some(Ignored), None);
    es := [Lookup(1, o), Lookup(2, o), Load(1, Ok(map[]), Ok(map[])), Load(2, Ok(map[]), Ok(map[])),
           Insert(1), Insert(2)];
    var w0 := Empty();
    var w1 := Next(w0, es[0]);
    var w2 := Next(w1, es[1]);
    var w3 := Next(w2, es[2]);
    var w4 := Next(w3, es[3]);
    var w5 := Next(w4, es[4]);
    var w6 := Next(w5, es[5]);
    ws := [w0, w1, w2, w3, w4, w5, w6];
    assert IsStep(w0, es[0], w1) && IsStep(w1, es[1], w2) && IsStep(w2, es[2], w3);
    assert IsStep(w3, es[3], w4) && IsStep(w4, es[4], w5) && IsStep(w5, es[5], w6);
    var h, g := w6.handles[0], w6.handles[1];
    assert h in w6.handles && g in w6.handles && h.inner.data != g.inner.data;
  }
}
