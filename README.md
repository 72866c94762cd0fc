# Fleet monitoring: a verified model of the device registry and its statistics

This project models the core of a small device-telemetry service, written in Go as one file (`main.go`).
At startup the service loads a CSV file of device ids into an in-memory registry.
Devices then post heartbeats (`POST /devices/{id}/heartbeat`) and upload-duration samples (`POST /devices/{id}/stats`).
A client reads each device's statistics (`GET /devices/{id}/stats`): a heartbeat density called "uptime", and the average upload time.

The model has four modules:

- `Wrappers` (`wrappers.dfy`): `Option` and `Result`.
- `Stats` (`stats.dfy`): the computations of `getStats`.
  - The min/max scan over the unsorted heartbeats (`ScanBounds`).
  - Go's `time.Time.Sub`, which saturates at the bounds of `time.Duration` (`Sub`).
  - The uptime, with its positive-span guard (`Uptime`, `ComputeUptime`).
  - Go's truncating integer division (`TruncDiv`).
  - The average upload time (`Average`, `ComputeAverage`).
  - `Min`, `Max` and `Sum` are the reference definitions the loops are proved against.
- `FleetSpec` (`fleet_spec.dfy`): the registry as a value, a `map<string, DeviceState>`.
  - One function per operation gives the new state and the HTTP response (`Load`, `Heartbeat`, `Upload`, `GetStats`).
  - Lemmas state what loading and posting guarantee.
- `Fleet` (`fleet.dfy`): the registry as the program has it.
  - A `Registry` object holds a `map<string, Device>`.
  - `Device` objects have their sample lists extended in place.
  - Each handler is a method. Its postcondition says that the new abstract state `Snapshot()` and the response are exactly what the `FleetSpec` function gives for the old state.

Timestamps are `int` nanoseconds since the Unix epoch, so Go's `Before`/`After` become `<`/`>`.
A span is a `time.Duration`, and `Minutes() > 0` holds exactly when the span in nanoseconds is positive.
A decoded request body is an `Option`, where `None` means JSON decoding failed.
Decoding fails only on malformed JSON, a value of the wrong type, or a `sent_at` string that is not an RFC 3339 time.
A body that omits `sent_at` or sets it to `null` decodes successfully to Go's zero time, 0001-01-01T00:00:00Z (`ZERO_TIME`), and a missing `upload_time` decodes to 0.
Such a body is `Some(...)` and is answered with 201, not 400.
A heartbeat at the zero time is also where `Sub` saturates: its distance to any present-day instant does not fit in a `time.Duration` (`FleetSpec.MissingSentAtSaturates`).
The CSV reader's output is an `Option<seq<Row>>`, where `None` means the file could not be opened or is not well-formed CSV.
A `Row` is a non-empty sequence of fields; a CSV reader never yields an empty record.

The reading of the bootstrap file follows Go's `encoding/csv` defaults.
The header is read first, and an empty file makes that read fail.
The number of fields in the header then fixes the field count, and `ReadAll` fails on any record with a different count.
`loadDevices` returns every one of these errors before it inserts anything, so the registry is left unchanged.
A data record whose id is already present replaces that record with a fresh empty one: the last write wins.

## Model

| member | source | states |
|---|---|---|
| `Stats.ScanBounds` | main.go:149-160 | For non-empty heartbeats the scan returns `first == Min` and `last == Max`; both are elements of the sequence, and `first <= h <= last` for every heartbeat `h` |
| `Stats.MinIsLeast` | main.go:153-156 | The running minimum is an element of the sequence and no element is smaller |
| `Stats.MaxIsGreatest` | main.go:157-159 | The running maximum is an element of the sequence and no element is larger |
| `Stats.Sub` | main.go:162 | `last.Sub(first)` lies within the range of `time.Duration`; it equals the exact difference when that fits; it is positive exactly when the exact difference is |
| `Stats.ComputeUptime` | main.go:148-167 | The uptime computed by scanning and guarding equals the reference `Uptime`: 0 without heartbeats or with a non-positive span, otherwise count / minutes * 100 |
| `Stats.Uptime` | main.go:148-167 | The reference uptime is never negative. It is 0 exactly when there is no heartbeat or every heartbeat is the same instant; otherwise it is count / minutes * 100 |
| `Stats.SpanPositiveIff` | main.go:162-164 | For non-empty heartbeats, the saturated span `last.Sub(first)` is positive exactly when two heartbeats differ |
| `Stats.UptimeSingle` | main.go:149-166 | A single heartbeat gives uptime 0 |
| `Stats.UptimeCanExceed100` | main.go:165 | Three heartbeats within one minute give uptime 300: the value is a density and is not clamped to 100 |
| `Stats.TruncDiv` | main.go:175 | Go's `/` by a positive count: the remainder `a - q*b` has the sign of the dividend and is smaller than the divisor in magnitude |
| `Stats.TruncDivNonNegative` | main.go:175 | For a non-negative sum, Go's `/` agrees with Euclidean division |
| `Stats.ComputeAverage` | main.go:169-176 | The summing loop followed by the division gives `Average`: 0 for no samples, otherwise `Sum / count` truncated toward zero |
| `Stats.Average` | main.go:169-176 | The reference average is 0 for no samples. For any non-empty samples, negative ones included, it lies between the smallest and the largest. For a non-negative sum it is the Euclidean quotient `Sum / count` |
| `Stats.SumBetween` | main.go:171-174 | If every sample lies in `[lo, hi]`, the sum lies in `[count*lo, count*hi]` |
| `Stats.TruncDivBetween` | main.go:175 | A quotient truncated toward zero of a value in `[n*lo, n*hi]` lies in `[lo, hi]` |
| `Stats.AverageTruncatesTowardZero` | main.go:169-176 | `[10,20,30]` gives 20, `[10,21]` gives 15, `[-10,-21]` gives -15 (Euclidean division would give -16), and `[]` gives 0 |
| `FleetSpec.Heartbeat` | main.go:75-102 | The heartbeat handler as a function. A bad body gives 400 with no change, whatever the id. A good body for an unknown id gives 404 with no change. Otherwise 201: the same keys, the timestamp appended last to that device's heartbeats, its uploads and every other device unchanged |
| `FleetSpec.Upload` | main.go:104-132 | The upload handler as a function. The same 400/404 rules. On 201 the `upload_time` is appended last to that device's uploads; its heartbeats and every other device are unchanged; `sent_at` is ignored |
| `FleetSpec.GetStats` | main.go:134-176 | The GET handler as a function: 404 exactly for an unknown id; a known id always gets 200 with `Stats.Uptime` of its heartbeats and `Stats.Average` of its samples. The uptime is non-negative and zero exactly when there are no heartbeats or all are the same instant, and the average is 0 without samples or lies between the smallest and largest sample |
| `FleetSpec.UploadIgnoresSentAt` | main.go:108-128 | Two upload bodies that differ only in `sent_at` have the same effect and response |
| `FleetSpec.MissingSentAtSaturates` | main.go:79-98 | A heartbeat whose body lacks `sent_at` decodes to the zero time (year 1) and is accepted with 201. Against any instant from 1970 on, the span from it saturates at the largest `time.Duration`, so an empty device that receives a heartbeat at such an instant and then one without `sent_at` reports 0 average and an uptime of 2 over the saturated span in minutes, times 100 |
| `FleetSpec.InsertRecords` | main.go:63-71 | The load loop as a function: one fresh empty record per data record, in file order, each replacing any earlier one. It keeps every record filed under its own id |
| `FleetSpec.InsertRecordsKeys` | main.go:63-71 | After the load loop the keys are the old keys plus the data records' first columns, and nothing else |
| `FleetSpec.InsertRecordsEmpty` | main.go:63-69 | Every data record's id names a record with that id and empty heartbeats and uploads, even if the id was present before or repeated |
| `FleetSpec.InsertRecordsKeepsOthers` | main.go:63-71 | A key named by no data record keeps its presence and its record |
| `FleetSpec.InsertRecordsAllEmpty` | main.go:63-69 | Every data record after the header names a fresh empty record in the loaded map |
| `FleetSpec.InsertRecordsAllKept` | main.go:63-71 | Every key present before the load and named by no data record keeps its record |
| `FleetSpec.Load` | main.go:43-73 | loadDevices as a function. It fails exactly when the source is unreadable, has no header or has a field-count mismatch. On success the keys are the old ones plus the data ids, each data id holds a fresh empty record, other keys keep theirs, and every record stays filed under its own id |
| `FleetSpec.HeaderNotADevice` | main.go:51-53 | The header record is consumed: its first field becomes a device only if a data record repeats it |
| `FleetSpec.LoadExample` | main.go:63-71 | Loading a header with the records `dev1` and `dev2` registers `dev1` and `dev2`; `dev3` stays unknown |
| `FleetSpec.HandlersWellKeyed` | main.go:97-98 | Both posting handlers keep every record filed under its own id |
| `FleetSpec.BadBodyBeforeLookup` | main.go:83-95 | A body that fails to decode gives 400 and no change, even for an unknown id, because decoding is checked before lookup |
| `FleetSpec.UnknownIdNotFound` | main.go:88-144 | An id absent from the registry gives 404 from all three endpoints, with no change |
| `FleetSpec.PostAllAppends` | main.go:97-129 | Any interleaved run of well-formed posts to a known device appends exactly the posted timestamps to its heartbeats and exactly the posted samples to its uploads, each in posting order. Nothing else changes, so no update is lost |
| `FleetSpec.PostAllUnknown` | main.go:88-125 | Any run of posts to an unknown id leaves the registry unchanged |
| `FleetSpec.PostsThenStats` | main.go:97-176 | From a freshly loaded device, any interleaving of heartbeat and upload posts followed by a GET reports the uptime of exactly the posted timestamps and the average of exactly the posted samples. The heartbeat count equals the number of heartbeat posts |
| `Fleet.Device.constructor` | main.go:65-69 | A new record has the given id and empty heartbeats and uploads |
| `Fleet.Device.AddHeartbeat` | main.go:98 | Appends the timestamp to the heartbeats and leaves the uploads unchanged |
| `Fleet.Device.AddUploadTime` | main.go:128 | Appends the sample to the uploads and leaves the heartbeats unchanged |
| `Fleet.Registry.constructor` | main.go:23 | The registry starts with an empty map and is valid |
| `Fleet.Registry.Lookup` | main.go:88-95 | The lookup reports absence exactly for ids not in the map; a record it finds carries the looked-up id |
| `Fleet.Registry.LoadDevices` | main.go:43-73 | On error the map is unchanged and the error is the one `Load` names. On success `Snapshot()` is `Load`'s new state. The records made are fresh, one per data record, and the last record for an id owns it. Every record left in the map is an old one or a fresh one, so the handlers can be called afterwards |
| `Fleet.InsertedStep` | main.go:64-69 | Filing a new record under a data record's id makes it that id's owner; earlier records keep every other id they own |
| `Fleet.Registry.AddEmpty` | main.go:64-69 | Files a fresh record with the given id under that id, replacing any earlier one. The snapshot changes at that key only, to an empty record |
| `Fleet.Registry.InsertAll` | main.go:63-71 | The insertion loop: the new snapshot is `InsertRecords` of the old one. Every created record is fresh and has its record's id, and a record owns its id when no later record repeats it. Every record in the map is an old one or a fresh one |
| `Fleet.Registry.HandleHeartbeat` | main.go:75-102 | The map itself is unchanged; the new snapshot and the response are those of `FleetSpec.Heartbeat` |
| `Fleet.Registry.HandleStats` | main.go:104-132 | The map itself is unchanged; the new snapshot and the response are those of `FleetSpec.Upload` |
| `Fleet.Registry.GetStats` | main.go:134-186 | Returns 404 for an unknown id; otherwise the uptime and average of that device's current samples, as `FleetSpec.GetStats` gives them |

## Left out

- HTTP routing, `mux.Vars`, writing the response, `main` and flag parsing (main.go:26-41): I/O and library wiring. The path id and the decoded body are parameters of the handlers.
- Opening the file and tokenising the CSV (main.go:44-58): file I/O and a library parser. Their output is the `Option<seq<Row>>` parameter. Only the reader's field-count rule is modelled on top of it.
- JSON decoding and RFC 3339 timestamp parsing (main.go:83, main.go:113): library calls; only their success or failure is modelled.
- JSON encoding of the statistics and `fmt.Sprintf("%d", ...)` (main.go:178-185): library calls. `StatsOk` carries the average as an integer, not as its decimal string.
- The `Loaded device` log line (main.go:70): output only.
- `globalMutex` and the per-device `mutex` (main.go:20, main.go:24, main.go:60-61, main.go:88-90, main.go:97-99, main.go:145-146): the locking discipline cannot be expressed in this sequential model. Each handler is treated as one atomic step, which is what the locks ensure for a single device.
- Stats.ComputeUptime: the uptime is the exact real value of `count / (span / 1 minute) * 100`. Go computes it in `float64`, and that rounding is not modelled.
- Stats.TruncDiv: defined only for a positive divisor, because `main.go` divides only by the number of samples and only when there is at least one.
- Stats.ComputeAverage: the sum is a mathematical integer. The 64-bit overflow of Go's `int` on very large sums (main.go:171-174) is not modelled, and neither is the rejection of out-of-range `upload_time` values by the JSON decoder.
- Go's `time.Time` also carries a location and a monotonic reading. Neither affects timestamps decoded from JSON or the comparisons made here, so an instant is modelled as its nanosecond count.
