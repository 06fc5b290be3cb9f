# Health registry

A model of a small in-process health registry written in Go. A host process
registers the services it depends on by (name, namespace), reports each of them
up or down, and an HTTP liveness handler answers 200 when every registered
service is up and 500 otherwise, always with the full list of services in
registration order. Each service also owns a Prometheus gauge that reads 1 when
the service is up and 0 otherwise.

Everything sits in one module, `Health` (`health.dfy`):

- `ServiceState` is the Go `byte` type with its three named values, and
  `StateName` is its `String` method.
- `Service` is the record: name, namespace, state and gauge. The gauge is a
  value holding its registration descriptor (namespace, name, help text) and its
  number.
- `Find`, `Ensured`, `WithState`, `AllRunning` and `Snapshot` describe the
  registry operations as functions of the record sequence. The lemmas beside
  them state what the operations promise.
- `HealthImpl` is the registry class. It holds the record sequence `items`,
  updated in place, a flag `itemsNil` for a Go slice that is still nil, and a
  ghost set `registered` of the gauge descriptors it has registered with
  Prometheus. A new registry's slice is nil and is encoded as JSON `null`. A
  cleared registry holds an empty slice, which is encoded as `[]`. `Valid()`
  is its invariant: a nil slice holds no records, identities are unique, every
  gauge belongs to its record and mirrors its state, and `registered` is exactly
  the set of the records' gauges. Each method is proved against the functions
  above.
- `HealthCheckScenario` replays the two tests in types_test.go, in order, on
  one fresh registry. It calls `EnsureScenario`, `UndefinedScenario`,
  `UpScenario`, `DownScenario`, `ReUpScenario` and `ReDownScenario`, one per
  block of the tests. Their assertions give the statuses and bodies the tests
  expect. They are proved from the method contracts and the lemmas about the
  registry functions. `ClearScenario` is not from the tests. It shows a clear
  followed by a registration that behaves as a first-time one.

## Model

| member | source | states |
|---|---|---|
| Health.StateName | types.go:37-46 | running is named "Up", stopped "Down", and every other byte "undefined"; each name belongs to exactly those states |
| Health.Find | types.go:60-61 | the scan stops at the first record with the given identity; no match means no record has that identity |
| Health.Snapshot | types.go:100 | the liveness body has one entry per record, in registry order, holding its name, namespace and state name |
| Health.FindUnique | types.go:60-61 | when identities are unique, the scan finds exactly the one record that matches |
| Health.EnsureIdempotent | types.go:81-86 | a second EnsureService with the same identity leaves the records unchanged |
| Health.EnsureAppendsNew | types.go:87-88 | EnsureService on a new identity appends one record at the end, with the undefined state and help text `name + " up status"`, and keeps earlier records in place |
| Health.EnsurePreservesUnique | types.go:81-89 | EnsureService keeps (name, namespace) unique |
| Health.WithStateUpdatesMatch | types.go:59-72 | a state change on a present identity sets that record's state and its gauge (1 when running, 0 otherwise); length, position, identity and every other record are unchanged |
| Health.WithStateUnknownIsNoop | types.go:59-72 | a state change on an unknown identity changes nothing and creates no record |
| Health.WithStatePreservesInvariant | types.go:59-72 | a state change keeps identities unique, keeps every gauge in step with its state and keeps the set of gauges |
| Health.NewServiceIsUnhealthy | types.go:107-114 | a newly ensured service that was never reported up makes the registry unhealthy |
| Health.DownIsUnhealthy | types.go:77-79 | reporting a present service down makes the registry unhealthy |
| Health.UpRestoresHealth | types.go:74-76 | reporting the only service that is not running up makes the registry healthy |
| Health.HealthImpl.constructor | types.go:22-24 | a new registry has no records, a nil slice and no registered gauges |
| Health.HealthImpl.SetServiceState | types.go:59-72 | the records become `WithState` of the old ones; the invariant holds and no gauge is registered or unregistered |
| Health.HealthImpl.ServiceUp | types.go:74-76 | sets the running state on the matching record, as SetServiceState |
| Health.HealthImpl.ServiceDown | types.go:77-79 | sets the stopped state on the matching record, as SetServiceState |
| Health.HealthImpl.EnsureService | types.go:81-89 | the records become `Ensured` of the old ones; afterwards the service's gauge is registered, a gauge is only registered when it was not registered before, and the slice is not nil |
| Health.HealthImpl.ClearItems | types.go:123-128 | every owned gauge is unregistered and the registry is left with an empty slice that is not nil |
| Health.HealthImpl.ServeHTTP | types.go:99-121 | the status is 200 exactly when every record is running (so 200 for an empty registry) and 500 otherwise; the body is every record in order, or JSON null while the slice is nil; an encoder failure gives 500 and a plain-text message; the registry is not changed |
| Health.EnsureScenario | types_test.go:9-56 | on a fresh registry the handler answers 200 with a null body; ensuring redis in namespace_0 twice and in namespace_1 once gives two undefined records in that order |
| Health.UndefinedScenario | types_test.go:59-88 | ensuring namespace_0 again changes nothing, and the handler answers 500 with both "undefined" |
| Health.UpScenario | types_test.go:90-121 | reporting both services up gives 200 with both "Up" |
| Health.DownScenario | types_test.go:123-184 | reporting namespace_0 down, then ensuring namespace_1 again, gives 500 with "Down" and "Up" |
| Health.ReUpScenario | types_test.go:186-217 | reporting both services up again gives 200 with both "Up" |
| Health.ReDownScenario | types_test.go:219-249 | reporting namespace_1 down gives 500 with "Up" and "Down" |
| Health.HealthCheckScenario | types_test.go:9-249 | the two tests run in order on one fresh registry end with namespace_0 up and namespace_1 down |
| Health.ClearScenario | types.go:123-128 | after a clear the handler answers 200 with an empty array, and a new registration gives one undefined record whose gauge is the only one registered |

## Left out

- The package-level facade in default.go is not part of this model. It only delegates to one shared registry.
- `PrometheusScrapHandler` returns the Prometheus library's handler, and `HealthCheckHandler` returns the registry itself. Neither has logic of its own.
- Prometheus is not modelled. A gauge is a value with a descriptor and a number, and the ghost set `registered` stands for registration and unregistration. This works because each gauge belongs to exactly one record. Registration is assumed to succeed. The library would panic on a metric name it rejects, or on two identities with the same fully-qualified name, such as ("a_b", "c") and ("b", "c_a").
- The JSON encoding is abstract. `serviceState.MarshalJSON` is `StateName`, and the body is the sequence of (name, namespace, state name) entries, not bytes. Whether the encoder fails is a parameter of `ServeHTTP`: these plain records never make it fail.
- The HTTP transport is not modelled (`ResponseWriter`, header writes, the request). The response is a value made of a status and a body.
- The registry takes no locks, and the model is strictly sequential.
- No name sanitiser appears in the modelled code. The registry stores names and namespaces exactly as it is given them.
