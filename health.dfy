/** A registry of named services, each marked up or down by its host process,
    and the liveness rule that turns the registry into an HTTP status.

    The registry is a class over an ordered sequence of service records. The
    Prometheus gauge of each record is a plain value (its descriptor and its
    number); the ghost field `registered` stands for the gauges this registry
    has put into the Prometheus default registry. */
module Health {

  datatype Option<T> = None | Some(value: T)

  // ---------------------------------------------------------------------------
  // Service state
  // ---------------------------------------------------------------------------

  /** The state is a Go `byte`, so values other than the three named ones exist. */
  newtype ServiceState = b: int | 0 <= b < 256

  const UndefinedServiceState: ServiceState := 0
  const RunningServiceState: ServiceState := 1
  const StoppedServiceState: ServiceState := 2

  /** The name a state is reported under in the liveness body. */
  function StateName(s: ServiceState): (r: string)
    ensures r == "Up" <==> s == RunningServiceState
    ensures r == "Down" <==> s == StoppedServiceState
    ensures r == "undefined" <==> s != RunningServiceState && s != StoppedServiceState
  {
    if s == RunningServiceState then "Up"
    else if s == StoppedServiceState then "Down"
    else "undefined"
  }

  // ---------------------------------------------------------------------------
  // Records
  // ---------------------------------------------------------------------------

  /** What a gauge is registered under: namespace, name and help text. */
  datatype GaugeDesc = GaugeDesc(namespace: string, name: string, help: string)

  datatype Gauge = Gauge(desc: GaugeDesc, value: int)

  datatype Service = Service(name: string, namespace: string, state: ServiceState, gauge: Gauge)

  /** The descriptor EnsureService registers for a service. */
  function GaugeFor(name: string, namespace: string): GaugeDesc
  {
    GaugeDesc(namespace, name, name + " up status")
  }

  /** The gauge value a state change writes: 1 for running, 0 for anything else. */
  function GaugeValue(state: ServiceState): int
  {
    if state == RunningServiceState then 1 else 0
  }

  /** The record EnsureService appends; a fresh gauge reads 0. */
  function NewService(name: string, namespace: string): Service
  {
    Service(name, namespace, UndefinedServiceState, Gauge(GaugeFor(name, namespace), 0))
  }

  predicate Matches(s: Service, name: string, namespace: string)
  {
    s.name == name && s.namespace == namespace
  }

  /** At most one record per (name, namespace). */
  predicate UniqueIdentities(items: seq<Service>)
  {
    forall i, j ::
      0 <= i < |items| && 0 <= j < |items| &&
      items[i].name == items[j].name && items[i].namespace == items[j].namespace
      ==> i == j
  }

  /** The gauge of a record is its own and mirrors its state. */
  predicate GaugeConsistent(s: Service)
  {
    s.gauge.desc == GaugeFor(s.name, s.namespace) && s.gauge.value == GaugeValue(s.state)
  }

  ghost function Descs(items: seq<Service>): set<GaugeDesc>
  {
    set k | 0 <= k < |items| :: items[k].gauge.desc
  }

  // ---------------------------------------------------------------------------
  // The registry operations as functions of the record sequence
  // ---------------------------------------------------------------------------

  /** The position the linear scans stop at: the first record with this identity. */
  function Find(items: seq<Service>, name: string, namespace: string): (r: Option<nat>)
    ensures r.Some? ==>
      r.value < |items| && Matches(items[r.value], name, namespace) &&
      forall k :: 0 <= k < r.value ==> !Matches(items[k], name, namespace)
    ensures r.None? ==> forall k :: 0 <= k < |items| ==> !Matches(items[k], name, namespace)
  {
    if |items| == 0 then None
    else if Matches(items[0], name, namespace) then Some(0)
    else match Find(items[1..], name, namespace)
      case None => None
      case Some(i) => Some(i + 1)
  }

  /** The records after EnsureService. */
  function Ensured(items: seq<Service>, name: string, namespace: string): seq<Service>
  {
    if Find(items, name, namespace).Some? then items
    else items + [NewService(name, namespace)]
  }

  /** The records after setServiceState: the first match gets the state and its gauge. */
  function WithState(items: seq<Service>, name: string, namespace: string, state: ServiceState): seq<Service>
  {
    match Find(items, name, namespace)
    case None => items
    case Some(i) =>
      items[i := items[i].(state := state, gauge := items[i].gauge.(value := GaugeValue(state)))]
  }

  /** The liveness verdict: every record is running (true of an empty registry). */
  predicate AllRunning(items: seq<Service>)
  {
    forall k :: 0 <= k < |items| ==> items[k].state == RunningServiceState
  }

  // ---------------------------------------------------------------------------
  // The liveness response
  // ---------------------------------------------------------------------------

  /** One element of the JSON array: the gauge is not serialised. */
  datatype Entry = Entry(name: string, namespace: string, state: string)

  /** `Null` is what the encoder writes for a nil slice, `Json` a JSON array. */
  datatype Body = Null | Json(entries: seq<Entry>) | Text(message: string)

  datatype Response = Response(status: int, body: Body)

  const StatusOK := 200
  const StatusInternalServerError := 500

  const MarshalFailurePrefix := "Failed to marshal service status: "

  function EntryOf(s: Service): Entry
  {
    Entry(s.name, s.namespace, StateName(s.state))
  }

  /** The liveness body: every record, in registry order. */
  function Snapshot(items: seq<Service>): (r: seq<Entry>)
    ensures |r| == |items|
    ensures forall k :: 0 <= k < |items| ==> r[k] == EntryOf(items[k])
  {
    if |items| == 0 then [] else [EntryOf(items[0])] + Snapshot(items[1..])
  }

  // ---------------------------------------------------------------------------
  // Properties of the operations
  // ---------------------------------------------------------------------------

  /** With unique identities the scan finds exactly the record that matches. */
  lemma FindUnique(items: seq<Service>, name: string, namespace: string, i: nat)
    requires UniqueIdentities(items)
    requires i < |items| && Matches(items[i], name, namespace)
    ensures Find(items, name, namespace) == Some(i)
  {
    var r := Find(items, name, namespace);
    assert r.Some?;
    assert items[r.value].name == items[i].name && items[r.value].namespace == items[i].namespace;
  }

  /** A second EnsureService with the same identity is a no-op. */
  lemma EnsureIdempotent(items: seq<Service>, name: string, namespace: string)
    ensures Ensured(Ensured(items, name, namespace), name, namespace) == Ensured(items, name, namespace)
  {
    var e := Ensured(items, name, namespace);
    if Find(items, name, namespace).None? {
      assert Matches(e[|items|], name, namespace);
    }
  }

  /** EnsureService on a new identity appends one undefined record whose gauge is
      described by `name + " up status"`, keeping every earlier record in place. */
  lemma EnsureAppendsNew(items: seq<Service>, name: string, namespace: string)
    requires forall k :: 0 <= k < |items| ==> !Matches(items[k], name, namespace)
    ensures |Ensured(items, name, namespace)| == |items| + 1
    ensures Ensured(items, name, namespace)[..|items|] == items
    ensures Ensured(items, name, namespace)[|items|].name == name
    ensures Ensured(items, name, namespace)[|items|].namespace == namespace
    ensures Ensured(items, name, namespace)[|items|].state == UndefinedServiceState
    ensures Ensured(items, name, namespace)[|items|].gauge.desc.help == name + " up status"
  {
  }

  /** EnsureService keeps identities unique. */
  lemma EnsurePreservesUnique(items: seq<Service>, name: string, namespace: string)
    requires UniqueIdentities(items)
    ensures UniqueIdentities(Ensured(items, name, namespace))
  {
    var e := Ensured(items, name, namespace);
    if Find(items, name, namespace).None? {
      forall i, j | 0 <= i < |e| && 0 <= j < |e| &&
          e[i].name == e[j].name && e[i].namespace == e[j].namespace
        ensures i == j
      {
        if i < |items| && j < |items| {
        } else if i < |items| {
          assert Matches(items[i], name, namespace);
        } else if j < |items| {
          assert Matches(items[j], name, namespace);
        }
      }
    }
  }

  /** A state change on a present identity updates that record's state and gauge
      only: length, order, identities and every other record stay as they were. */
  lemma WithStateUpdatesMatch(items: seq<Service>, name: string, namespace: string, state: ServiceState, i: nat)
    requires UniqueIdentities(items)
    requires i < |items| && Matches(items[i], name, namespace)
    ensures |WithState(items, name, namespace, state)| == |items|
    ensures WithState(items, name, namespace, state)[i].name == name
    ensures WithState(items, name, namespace, state)[i].namespace == namespace
    ensures WithState(items, name, namespace, state)[i].state == state
    ensures WithState(items, name, namespace, state)[i].gauge.desc == items[i].gauge.desc
    ensures WithState(items, name, namespace, state)[i].gauge.value == (if state == RunningServiceState then 1 else 0)
    ensures forall k :: 0 <= k < |items| && k != i ==> WithState(items, name, namespace, state)[k] == items[k]
  {
    FindUnique(items, name, namespace, i);
  }

  /** A state change on an unknown identity changes nothing and creates nothing. */
  lemma WithStateUnknownIsNoop(items: seq<Service>, name: string, namespace: string, state: ServiceState)
    requires forall k :: 0 <= k < |items| ==> !Matches(items[k], name, namespace)
    ensures WithState(items, name, namespace, state) == items
  {
  }

  /** State changes keep identities unique and keep every record's gauge in step. */
  lemma WithStatePreservesInvariant(items: seq<Service>, name: string, namespace: string, state: ServiceState)
    requires UniqueIdentities(items)
    requires forall k :: 0 <= k < |items| ==> GaugeConsistent(items[k])
    ensures UniqueIdentities(WithState(items, name, namespace, state))
    ensures forall k :: 0 <= k < |items| ==> GaugeConsistent(WithState(items, name, namespace, state)[k])
    ensures Descs(WithState(items, name, namespace, state)) == Descs(items)
  {
    var w := WithState(items, name, namespace, state);
    assert |w| == |items|;
    assert forall k :: 0 <= k < |items| ==>
      w[k].name == items[k].name && w[k].namespace == items[k].namespace && w[k].gauge.desc == items[k].gauge.desc;
  }

  /** A record that was ensured but never reported up makes the registry unhealthy. */
  lemma NewServiceIsUnhealthy(items: seq<Service>, name: string, namespace: string)
    requires forall k :: 0 <= k < |items| ==> !Matches(items[k], name, namespace)
    ensures !AllRunning(Ensured(items, name, namespace))
  {
    EnsureAppendsNew(items, name, namespace);
    var e := Ensured(items, name, namespace);
    assert e[|items|].state != RunningServiceState;
  }

  /** Reporting a present service down makes the registry unhealthy. */
  lemma DownIsUnhealthy(items: seq<Service>, name: string, namespace: string, i: nat)
    requires i < |items| && Matches(items[i], name, namespace)
    ensures !AllRunning(WithState(items, name, namespace, StoppedServiceState))
  {
    var r := Find(items, name, namespace);
    assert r.Some?;
    assert WithState(items, name, namespace, StoppedServiceState)[r.value].state == StoppedServiceState;
  }

  /** Reporting the only non-running service up makes the registry healthy. */
  lemma UpRestoresHealth(items: seq<Service>, name: string, namespace: string, i: nat)
    requires UniqueIdentities(items)
    requires i < |items| && Matches(items[i], name, namespace)
    requires forall k :: 0 <= k < |items| && k != i ==> items[k].state == RunningServiceState
    ensures AllRunning(WithState(items, name, namespace, RunningServiceState))
  {
    WithStateUpdatesMatch(items, name, namespace, RunningServiceState, i);
  }

  // ---------------------------------------------------------------------------
  // The registry
  // ---------------------------------------------------------------------------

  class HealthImpl {
    var items: seq<Service>
    /** The gauges this registry has registered with Prometheus and not unregistered. */
    ghost var registered: set<GaugeDesc>
    /** The slice is nil: so from construction until the first append. A cleared
        registry holds an empty slice that is not nil. */
    var itemsNil: bool

    ghost predicate Valid()
      reads this
    {
      (itemsNil ==> items == []) &&
      UniqueIdentities(items) &&
      (forall k :: 0 <= k < |items| ==> GaugeConsistent(items[k])) &&
      registered == Descs(items)
    }

    /** A new registry is empty, and its slice is nil. */
    constructor ()
      ensures Valid()
      ensures items == [] && itemsNil && registered == {}
    {
      items := [];
      itemsNil := true;
      registered := {};
    }

    /** Scans for the first record with this identity; if one is found, sets its
        state and its gauge (1 for running, 0 otherwise). Unknown identities are
        ignored. */
    method SetServiceState(name: string, namespace: string, state: ServiceState)
      requires Valid()
      modifies this
      ensures Valid()
      ensures items == WithState(old(items), name, namespace, state)
      ensures registered == old(registered)
      ensures itemsNil == old(itemsNil)
    {
      WithStatePreservesInvariant(items, name, namespace, state);
      var index := 0;
      while index < |items|
        invariant 0 <= index <= |items|
        invariant items == old(items)
        invariant forall k :: 0 <= k < index ==> !Matches(items[k], name, namespace)
      {
        if items[index].name == name && items[index].namespace == namespace {
          var gauge := items[index].gauge;
          if state == RunningServiceState {
            gauge := gauge.(value := 1);
          } else {
            gauge := gauge.(value := 0);
          }
          items := items[index := items[index].(state := state, gauge := gauge)];
          return;
        }
        index := index + 1;
      }
    }

    method ServiceUp(name: string, namespace: string)
      requires Valid()
      modifies this
      ensures Valid()
      ensures items == WithState(old(items), name, namespace, RunningServiceState)
      ensures registered == old(registered)
      ensures itemsNil == old(itemsNil)
    {
      SetServiceState(name, namespace, RunningServiceState);
    }

    method ServiceDown(name: string, namespace: string)
      requires Valid()
      modifies this
      ensures Valid()
      ensures items == WithState(old(items), name, namespace, StoppedServiceState)
      ensures registered == old(registered)
      ensures itemsNil == old(itemsNil)
    {
      SetServiceState(name, namespace, StoppedServiceState);
    }

    /** Appends a record and registers its gauge unless the identity is present.
        A gauge is never registered twice. */
    method EnsureService(name: string, namespace: string)
      requires Valid()
      modifies this
      ensures Valid()
      ensures items == Ensured(old(items), name, namespace)
      ensures registered == old(registered) + {GaugeFor(name, namespace)}
      ensures |items| > |old(items)| ==> GaugeFor(name, namespace) !in old(registered)
      ensures !itemsNil
    {
      EnsurePreservesUnique(items, name, namespace);
      var k := 0;
      while k < |items|
        invariant 0 <= k <= |items|
        invariant forall j :: 0 <= j < k ==> !Matches(items[j], name, namespace)
      {
        if items[k].name == name && items[k].namespace == namespace {
          assert GaugeConsistent(items[k]);
          assert items[k].gauge.desc in Descs(items);
          return;
        }
        k := k + 1;
      }
      var gauge := Gauge(GaugeFor(name, namespace), 0);
      assert gauge.desc !in registered by {
        forall j | 0 <= j < |items| ensures items[j].gauge.desc != gauge.desc {
          assert GaugeConsistent(items[j]);
        }
      }
      registered := registered + {gauge.desc};
      items := items + [Service(name, namespace, UndefinedServiceState, gauge)];
      itemsNil := false;
      assert Descs(items) == Descs(old(items)) + {gauge.desc} by {
        assert forall d :: d in Descs(items) ==> d in Descs(old(items)) + {gauge.desc} by {
          forall d | d in Descs(items) ensures d in Descs(old(items)) + {gauge.desc} {
            var j :| 0 <= j < |items| && items[j].gauge.desc == d;
            if j < |old(items)| {
              assert old(items)[j] == items[j];
            }
          }
        }
        forall d | d in Descs(old(items)) ensures d in Descs(items) {
          var j :| 0 <= j < |old(items)| && old(items)[j].gauge.desc == d;
          assert items[j] == old(items)[j];
        }
        assert items[|old(items)|].gauge.desc == gauge.desc;
      }
    }

    /** Unregisters every owned gauge, then empties the registry. */
    method ClearItems()
      requires Valid()
      modifies this
      ensures Valid()
      ensures items == []
      ensures registered == old(registered) - Descs(old(items))
      ensures registered == {}
      ensures !itemsNil
    {
      var i := 0;
      while i < |items|
        invariant 0 <= i <= |items|
        invariant items == old(items)
        invariant registered == old(registered) - Descs(items[..i])
      {
        assert Descs(items[..i + 1]) == Descs(items[..i]) + {items[i].gauge.desc} by {
          assert items[..i + 1] == items[..i] + [items[i]];
          forall d | d in Descs(items[..i + 1]) ensures d in Descs(items[..i]) + {items[i].gauge.desc} {
            var j :| 0 <= j < i + 1 && items[..i + 1][j].gauge.desc == d;
            if j < i {
              assert items[..i][j] == items[..i + 1][j];
            }
          }
          forall d | d in Descs(items[..i]) ensures d in Descs(items[..i + 1]) {
            var j :| 0 <= j < i && items[..i][j].gauge.desc == d;
            assert items[..i + 1][j] == items[..i][j];
          }
          assert items[..i + 1][i] == items[i];
        }
        registered := registered - {items[i].gauge.desc};
        i := i + 1;
      }
      assert items[..i] == items;
      items := [];
      itemsNil := false;
    }

    /** The liveness handler: the body is every record in order (JSON null while
        the slice is nil), the status is 200 exactly when every record is running
        and 500 otherwise; a failure of the JSON encoder (passed in, since the
        encoder is not modelled) gives 500 with a plain-text message. The handler
        changes nothing. */
    method ServeHTTP(marshalError: Option<string>) returns (rsp: Response)
      ensures marshalError.Some? ==>
        rsp == Response(StatusInternalServerError, Text(MarshalFailurePrefix + marshalError.value))
      ensures marshalError.None? ==> rsp.body == (if itemsNil then Null else Json(Snapshot(items)))
      ensures marshalError.None? ==> (rsp.status == StatusOK <==> AllRunning(items))
      ensures rsp.status == StatusOK || rsp.status == StatusInternalServerError
    {
      if marshalError.Some? {
        rsp := Response(StatusInternalServerError, Text(MarshalFailurePrefix + marshalError.value));
        return;
      }
      var body := if itemsNil then Null else Json(Snapshot(items));
      var status := StatusInternalServerError;
      var running := true;
      var i := 0;
      while i < |items|
        invariant 0 <= i <= |items|
        invariant running
        invariant forall k :: 0 <= k < i ==> items[k].state == RunningServiceState
      {
        if items[i].state != RunningServiceState {
          running := false;
          status := StatusInternalServerError;
          break;
        }
        i := i + 1;
      }
      if running {
        status := StatusOK;
      }
      rsp := Response(status, body);
    }
  }

  function Redis(namespace: string, state: ServiceState): Service
  {
    Service("redis", namespace, state, Gauge(GaugeFor("redis", namespace), GaugeValue(state)))
  }

  /** The registrations of the repository's first test, on a fresh registry
      whose handler answers 200 with a JSON null body. */
  method EnsureScenario() returns (h: HealthImpl)
    ensures fresh(h) && h.Valid() && !h.itemsNil
    ensures h.items == [Redis("namespace_0", UndefinedServiceState), Redis("namespace_1", UndefinedServiceState)]
  {
    h := new HealthImpl();
    var rsp := h.ServeHTTP(None);
    assert rsp == Response(StatusOK, Null);

    h.EnsureService("redis", "namespace_0");
    assert h.items == [Redis("namespace_0", UndefinedServiceState)];
    h.EnsureService("redis", "namespace_0");
    assert |h.items| == 1;
    h.EnsureService("redis", "namespace_1");
    assert Find([Redis("namespace_0", UndefinedServiceState)], "redis", "namespace_1").None?;
  }

  /** Ensuring a present service again, none reported yet: 500 with both "undefined". */
  method UndefinedScenario(h: HealthImpl)
    requires h.Valid() && !h.itemsNil
    requires h.items == [Redis("namespace_0", UndefinedServiceState), Redis("namespace_1", UndefinedServiceState)]
    modifies h
    ensures h.Valid() && !h.itemsNil
    ensures h.items == [Redis("namespace_0", UndefinedServiceState), Redis("namespace_1", UndefinedServiceState)]
  {
    FindUnique(h.items, "redis", "namespace_0", 0);
    h.EnsureService("redis", "namespace_0");
    var rsp := h.ServeHTTP(None);
    assert rsp.status == StatusInternalServerError;
    assert rsp.body == Json([Entry("redis", "namespace_0", "undefined"), Entry("redis", "namespace_1", "undefined")]);
  }

  /** Both services reported up: the handler answers 200 with both "Up". */
  method UpScenario(h: HealthImpl)
    requires h.Valid() && !h.itemsNil
    requires h.items == [Redis("namespace_0", UndefinedServiceState), Redis("namespace_1", UndefinedServiceState)]
    modifies h
    ensures h.Valid() && !h.itemsNil
    ensures h.items == [Redis("namespace_0", RunningServiceState), Redis("namespace_1", RunningServiceState)]
  {
    var s1 := Redis("namespace_1", UndefinedServiceState);
    var up0 := Redis("namespace_0", RunningServiceState);
    var up1 := Redis("namespace_1", RunningServiceState);
    WithStateUpdatesMatch(h.items, "redis", "namespace_0", RunningServiceState, 0);
    h.ServiceUp("redis", "namespace_0");
    assert h.items == [up0, s1];
    WithStateUpdatesMatch(h.items, "redis", "namespace_1", RunningServiceState, 1);
    h.ServiceUp("redis", "namespace_1");
    assert h.items == [up0, up1];
    var rsp := h.ServeHTTP(None);
    assert rsp.status == StatusOK;
    assert rsp.body == Json([Entry("redis", "namespace_0", "Up"), Entry("redis", "namespace_1", "Up")]);
  }

  /** One service reported down, then ensured again: the handler answers 500 and
      the other service still reads "Up". */
  method DownScenario(h: HealthImpl)
    requires h.Valid() && !h.itemsNil
    requires h.items == [Redis("namespace_0", RunningServiceState), Redis("namespace_1", RunningServiceState)]
    modifies h
    ensures h.Valid() && !h.itemsNil
    ensures h.items == [Redis("namespace_0", StoppedServiceState), Redis("namespace_1", RunningServiceState)]
  {
    var up1 := Redis("namespace_1", RunningServiceState);
    var down0 := Redis("namespace_0", StoppedServiceState);
    WithStateUpdatesMatch(h.items, "redis", "namespace_0", StoppedServiceState, 0);
    h.ServiceDown("redis", "namespace_0");
    assert h.items == [down0, up1];
    FindUnique(h.items, "redis", "namespace_1", 1);
    h.EnsureService("redis", "namespace_1");
    assert h.items == [down0, up1];
    var rsp := h.ServeHTTP(None);
    assert rsp.status == StatusInternalServerError;
    assert rsp.body == Json([Entry("redis", "namespace_0", "Down"), Entry("redis", "namespace_1", "Up")]);
  }

  /** The downed service reported up again: 200 with both "Up". */
  method ReUpScenario(h: HealthImpl)
    requires h.Valid() && !h.itemsNil
    requires h.items == [Redis("namespace_0", StoppedServiceState), Redis("namespace_1", RunningServiceState)]
    modifies h
    ensures h.Valid() && !h.itemsNil
    ensures h.items == [Redis("namespace_0", RunningServiceState), Redis("namespace_1", RunningServiceState)]
  {
    var up0 := Redis("namespace_0", RunningServiceState);
    var up1 := Redis("namespace_1", RunningServiceState);
    WithStateUpdatesMatch(h.items, "redis", "namespace_0", RunningServiceState, 0);
    h.ServiceUp("redis", "namespace_0");
    assert h.items == [up0, up1];
    WithStateUpdatesMatch(h.items, "redis", "namespace_1", RunningServiceState, 1);
    h.ServiceUp("redis", "namespace_1");
    assert h.items == [up0, up1];
    var rsp := h.ServeHTTP(None);
    assert rsp.status == StatusOK;
    assert rsp.body == Json([Entry("redis", "namespace_0", "Up"), Entry("redis", "namespace_1", "Up")]);
  }

  /** The other service reported down: 500 with "Up" and "Down". */
  method ReDownScenario(h: HealthImpl)
    requires h.Valid() && !h.itemsNil
    requires h.items == [Redis("namespace_0", RunningServiceState), Redis("namespace_1", RunningServiceState)]
    modifies h
    ensures h.Valid() && !h.itemsNil
    ensures h.items == [Redis("namespace_0", RunningServiceState), Redis("namespace_1", StoppedServiceState)]
  {
    var up0 := Redis("namespace_0", RunningServiceState);
    var down1 := Redis("namespace_1", StoppedServiceState);
    WithStateUpdatesMatch(h.items, "redis", "namespace_1", StoppedServiceState, 1);
    h.ServiceDown("redis", "namespace_1");
    assert h.items == [up0, down1];
    var rsp := h.ServeHTTP(None);
    assert rsp.status == StatusInternalServerError;
    assert rsp.body == Json([Entry("redis", "namespace_0", "Up"), Entry("redis", "namespace_1", "Down")]);
  }

  /** The repository's two tests in order, on one fresh registry. */
  method HealthCheckScenario() returns (h: HealthImpl)
    ensures fresh(h) && h.Valid()
    ensures h.items == [Redis("namespace_0", RunningServiceState), Redis("namespace_1", StoppedServiceState)]
  {
    h := EnsureScenario();
    UndefinedScenario(h);
    UpScenario(h);
    DownScenario(h);
    ReUpScenario(h);
    ReDownScenario(h);
  }

  /** A cleared registry answers 200 with an empty array (not null), and a
      registration after the clear behaves as a first-time one. */
  method ClearScenario(h: HealthImpl)
    requires h.Valid()
    modifies h
    ensures h.Valid() && !h.itemsNil
    ensures h.items == [Redis("namespace_1", UndefinedServiceState)]
    ensures h.registered == {GaugeFor("redis", "namespace_1")}
  {
    h.ClearItems();
    var rsp := h.ServeHTTP(None);
    assert rsp == Response(StatusOK, Json([]));
    h.EnsureService("redis", "namespace_1");
  }
}
