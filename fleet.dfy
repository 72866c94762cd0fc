/**
 * The in-memory registry of main.go: a map from device id to a Device record
 * whose sample lists the request handlers extend in place. Every operation
 * is proved to follow the function of module FleetSpec that describes it, on
 * the abstract view Snapshot().
 */
module Fleet {
  import opened Wrappers
  import opened Stats
  import opened FleetSpec

  /** One device's mutable record. */
  class Device {
    const id: string
    var heartbeats: seq<Timestamp>
    var uploadTimes: seq<int>

    /** A record with no heartbeats and no upload samples yet. */
    constructor (id: string)
      ensures this.id == id && heartbeats == [] && uploadTimes == []
    {
      this.id := id;
      heartbeats := [];
      uploadTimes := [];
    }

    /** The record's current contents as a value. */
    function State(): DeviceState
      reads this
    {
      DeviceState(id, heartbeats, uploadTimes)
    }

    /** Append a heartbeat timestamp (the append of handleHeartbeat). */
    method AddHeartbeat(sentAt: Timestamp)
      modifies this
      ensures heartbeats == old(heartbeats) + [sentAt]
      ensures uploadTimes == old(uploadTimes)
    {
      heartbeats := heartbeats + [sentAt];
    }

    /** Append an upload-time sample (the append of handleStats). */
    method AddUploadTime(uploadTime: int)
      modifies this
      ensures uploadTimes == old(uploadTimes) + [uploadTime]
      ensures heartbeats == old(heartbeats)
    {
      uploadTimes := uploadTimes + [uploadTime];
    }
  }

  /** No record after the i-th names the same id. */
  ghost predicate LastFor(records: seq<Row>, i: nat)
    requires i < |records|
  {
    forall j | i < j < |records| :: records[j][0] != records[i][0]
  }

  /**
   * The records made for `records` are one per record, in order, each with
   * its record's id, and the last record naming an id is the one filed under
   * it in `devices` (last write wins).
   */
  ghost predicate Inserted(devices: map<string, Device>, records: seq<Row>, created: seq<Device>) {
    && |created| == |records|
    && (forall i | 0 <= i < |records| :: created[i].id == records[i][0])
    && (forall i | 0 <= i < |records| && LastFor(records, i) ::
          records[i][0] in devices && devices[records[i][0]] == created[i])
  }

  /** Filing one more record under its id extends what has been inserted by that record. */
  lemma InsertedStep(devices: map<string, Device>, records: seq<Row>, created: seq<Device>, n: nat, device: Device)
    requires n < |records| && Inserted(devices, records[..n], created) && device.id == records[n][0]
    ensures Inserted(devices[records[n][0] := device], records[..n + 1], created + [device])
  {
    var done, done' := records[..n], records[..n + 1];
    var devices', created' := devices[records[n][0] := device], created + [device];
    forall i | 0 <= i < n + 1
      ensures created'[i].id == done'[i][0]
    {
      if i < n {
        assert created'[i] == created[i] && done'[i] == done[i];
      }
    }
    forall i | 0 <= i < n + 1 && LastFor(done', i)
      ensures done'[i][0] in devices' && devices'[done'[i][0]] == created'[i]
    {
      if i < n {
        assert done'[i] == done[i];
        assert done'[n][0] != done'[i][0];
        assert LastFor(done, i) by {
          forall j | i < j < n ensures done[j][0] != done[i][0] {
            assert done'[j] == done[j];
          }
        }
        assert created'[i] == created[i];
      }
    }
  }

  /** The process-wide device registry. */
  class Registry {
    var devices: map<string, Device>

    /** Every record is filed under its own id; so no two ids share a record. */
    ghost predicate Valid()
      reads this
    {
      forall k | k in devices :: devices[k].id == k
    }

    /** The registry as a value: each id with the current contents of its record. */
    ghost function Snapshot(): RegistryState
      reads this, devices.Values
    {
      map k | k in devices :: devices[k].State()
    }

    /** The empty registry the program starts with. */
    constructor ()
      ensures Valid() && devices == map[] && Snapshot() == map[]
    {
      devices := map[];
    }

    /** The lookup shared by all three handlers: the record filed under `id`, if any. */
    function Lookup(id: string): (r: Option<Device>)
      reads this
      requires Valid()
      ensures r.None? <==> id !in devices
      ensures r.Some? ==> r.value in devices.Values && r.value.id == id
    {
      if id in devices then Some(devices[id]) else None
    }

    /**
     * loadDevices, given what the CSV reader made of the file (None when the
     * file cannot be opened or is not well-formed CSV). The header and a
     * field-count mismatch are checked before anything is inserted.
     */
    method LoadDevices(source: Option<seq<Row>>) returns (err: Option<LoadError>, ghost created: seq<Device>)
      requires Valid()
      modifies this
      ensures Valid()
      ensures Load(old(Snapshot()), source).Failure? ==>
        err == Some(Load(old(Snapshot()), source).error) && devices == old(devices)
      ensures Load(old(Snapshot()), source).Success? ==>
        err == None && Snapshot() == Load(old(Snapshot()), source).value
      ensures err.None? ==> Inserted(devices, source.value[1..], created)
      ensures err.None? ==> forall i | 0 <= i < |created| :: fresh(created[i])
      ensures forall d | d in devices.Values :: d in old(devices.Values) || fresh(d)
    {
      created := [];
      if source.None? {
        return Some(SourceError), created;
      }
      var rows := source.value;
      if |rows| == 0 {
        return Some(NoHeader), created;
      }
      if !FieldCountsAgree(rows) {
        return Some(FieldCount), created;
      }
      created := InsertAll(rows[1..]);
      err := None;
    }

    /** The insertion loop of loadDevices: one fresh empty record per data record. */
    method InsertAll(records: seq<Row>) returns (ghost created: seq<Device>)
      requires Valid()
      modifies this
      ensures Valid()
      ensures Snapshot() == InsertRecords(old(Snapshot()), records)
      ensures Inserted(devices, records, created)
      ensures forall i | 0 <= i < |created| :: fresh(created[i])
      ensures forall d | d in devices.Values :: d in old(devices.Values) || fresh(d)
    {
      created := [];
      for n := 0 to |records|
        invariant Valid()
        invariant Snapshot() == InsertRecords(old(Snapshot()), records[..n])
        invariant Inserted(devices, records[..n], created)
        invariant forall i | 0 <= i < |created| :: fresh(created[i])
        invariant forall d | d in devices.Values :: d in old(devices.Values) || fresh(d)
      {
        ghost var prevDevices := devices;
        var device := AddEmpty(records[n][0]);
        InsertedStep(prevDevices, records, created, n, device);
        created := created + [device];
        assert records[..n + 1][..n] == records[..n];
      }
      assert records[..|records|] == records;
    }

    /** One step of the loading loop: file a fresh empty record under `id`, replacing any earlier one. */
    method AddEmpty(id: string) returns (device: Device)
      requires Valid()
      modifies this
      ensures Valid() && fresh(device) && device.id == id
      ensures devices == old(devices)[id := device]
      ensures Snapshot() == old(Snapshot())[id := EmptyDevice(id)]
    {
      ghost var prevDevices := devices;
      device := new Device(id);
      devices := devices[id := device];
      forall k | k in devices && k != id
        ensures devices[k].State() == old(Snapshot())[k]
      {
        assert devices[k] == prevDevices[k];
      }
    }

    /** handleHeartbeat: decode failure is 400, an unknown id 404, otherwise the timestamp is appended. */
    method HandleHeartbeat(id: string, body: Option<Timestamp>) returns (resp: Response)
      requires Valid()
      modifies devices.Values
      ensures Valid() && devices == old(devices)
      ensures (Snapshot(), resp) == Heartbeat(old(Snapshot()), id, body)
    {
      if body.None? {
        return BadRequest;
      }
      var found := Lookup(id);
      if found.None? {
        return NotFound;
      }
      var device := found.value;
      ghost var prev := Snapshot();
      device.AddHeartbeat(body.value);
      assert Snapshot() == prev[id := prev[id].(heartbeats := prev[id].heartbeats + [body.value])];
      resp := Created;
    }

    /** handleStats: decode failure is 400, an unknown id 404, otherwise the upload time is appended. */
    method HandleStats(id: string, body: Option<StatsBody>) returns (resp: Response)
      requires Valid()
      modifies devices.Values
      ensures Valid() && devices == old(devices)
      ensures (Snapshot(), resp) == Upload(old(Snapshot()), id, body)
    {
      if body.None? {
        return BadRequest;
      }
      var found := Lookup(id);
      if found.None? {
        return NotFound;
      }
      var device := found.value;
      ghost var prev := Snapshot();
      device.AddUploadTime(body.value.uploadTime);
      assert Snapshot() == prev[id := prev[id].(uploadTimes := prev[id].uploadTimes + [body.value.uploadTime])];
      resp := Created;
    }

    /** getStats: an unknown id is 404, otherwise uptime and average of the record's samples. */
    method GetStats(id: string) returns (resp: Response)
      requires Valid()
      ensures resp == FleetSpec.GetStats(Snapshot(), id)
    {
      var found := Lookup(id);
      if found.None? {
        return NotFound;
      }
      var device := found.value;
      var uptime := ComputeUptime(device.heartbeats);
      var avgUpload := ComputeAverage(device.uploadTimes);
      resp := StatsOk(uptime, avgUpload);
    }
  }
}
