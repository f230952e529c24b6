/** The batch synchronisation of offline edits (`processBatchSync`): the
    operations are applied one by one in timestamp order; sensor and alert
    configuration writes follow last-write-wins on `updatedAt`, sensor
    deletes are scoped to the user, reading writes only insert, and an
    alert configuration write needs a sensor of the user. A failing
    operation is counted and recorded, and the batch goes on.

    The payload is unvalidated (`z.any()`) and may be missing: a sensor
    write then spreads nothing, a reading create has no row data and is
    rejected, and an alert configuration op fails reading its `sensorId`.

    Rows hold their non-key columns as an opaque field map; a write's
    payload is such a map, merged over the existing row as an update
    does. */
module SyncService {
  import opened Wrappers
  import opened Ordering

  type Fields = map<string, string>

  datatype Kind = Create | Update | Delete

  datatype Resource = SensorResource | ReadingResource | AlertConfigResource

  /** `payload.sensorId` is read by the alert configuration check; the rest
      of the payload is written as columns. */
  datatype Payload = Payload(sensorId: Option<string>, fields: Fields)

  /** `payload` is `None` when the client sent none (or `null`). */
  datatype Op = Op(kind: Kind, resource: Resource, resourceId: string, payload: Option<Payload>, timestamp: int)

  /** The columns `...payload` spreads: none for a missing payload. */
  function PayloadFields(payload: Option<Payload>): Fields {
    if payload.Some? then payload.value.fields else map[]
  }

  datatype SensorRow = SensorRow(owner: string, fields: Fields, updatedAt: int)

  /** An alert configuration row: the sensor it belongs to, the other
      columns, and the time of the last write. */
  datatype ConfigRow = ConfigRow(sensorId: Option<string>, fields: Fields, updatedAt: int)

  datatype Store = Store(sensors: map<string, SensorRow>, readings: seq<Fields>, configs: map<string, ConfigRow>)

  const AccessDenied := "Sensor not found or access denied"

  /** The `TypeError` of `payload.sensorId` on a missing payload. */
  const PayloadUnreadable := "Cannot read properties of undefined (reading 'sensorId')"

  /** The rejection of `sensorReading.create({ data: undefined })`. */
  const DataMissing := "Argument `data` is missing."

  /** The upsert with last-write-wins: nothing happens when a row with this
      id was written at or after `ts`; otherwise the row is created, or the
      payload is merged over it, with `updatedAt` set to `ts`. */
  function SensorWrite(sensors: map<string, SensorRow>, userId: string, id: string, fields: Fields, ts: int): (r: map<string, SensorRow>)
    ensures id in sensors && sensors[id].updatedAt >= ts ==> r == sensors
    ensures !(id in sensors && sensors[id].updatedAt >= ts) ==>
      && r.Keys == sensors.Keys + {id}
      && r[id].updatedAt == ts
      && r[id].fields == (if id in sensors then sensors[id].fields else map[]) + fields
      && r[id].owner == (if id in sensors then sensors[id].owner else userId)
      && forall k | k in sensors && k != id :: r[k] == sensors[k]
  {
    if id in sensors && sensors[id].updatedAt >= ts then sensors
    else if id in sensors then sensors[id := SensorRow(sensors[id].owner, sensors[id].fields + fields, ts)]
    else sensors[id := SensorRow(userId, fields, ts)]
  }

  /** `handleSensorSync`. */
  function ApplySensor(st: Store, userId: string, op: Op): (st': Store)
    ensures st'.readings == st.readings && st'.configs == st.configs
    ensures op.kind == Delete ==>
      st'.sensors == if op.resourceId in st.sensors && st.sensors[op.resourceId].owner == userId
                     then st.sensors - {op.resourceId} else st.sensors
    ensures op.kind != Delete ==>
      st'.sensors == SensorWrite(st.sensors, userId, op.resourceId, PayloadFields(op.payload), op.timestamp)
  {
    if op.kind == Delete then
      var id := op.resourceId;
      st.(sensors := if id in st.sensors && st.sensors[id].owner == userId then st.sensors - {id} else st.sensors)
    else st.(sensors := SensorWrite(st.sensors, userId, op.resourceId, PayloadFields(op.payload), op.timestamp))
  }

  /** `handleReadingSync`: only a create inserts its payload, and a create
      without one is rejected. */
  function ApplyReading(st: Store, op: Op): (r: Result<Store, string>)
    ensures r.Failure? <==> op.kind == Create && op.payload.None?
    ensures r.Failure? ==> r.error == DataMissing
    ensures r.Success? && op.kind == Create ==> r.value.readings == st.readings + [op.payload.value.fields]
    ensures op.kind != Create ==> r == Success(st)
    ensures r.Success? ==> r.value.sensors == st.sensors && r.value.configs == st.configs
  {
    if op.kind != Create then Success(st)
    else if op.payload.None? then Failure(DataMissing)
    else Success(st.(readings := st.readings + [op.payload.value.fields]))
  }

  /** `findFirst({ where: { id: payload.sensorId, userId } })` finds a row: an
      absent `sensorId` puts no condition on the id. */
  predicate OwnsSensor(sensors: map<string, SensorRow>, userId: string, sensorId: Option<string>) {
    if sensorId.Some? then sensorId.value in sensors && sensors[sensorId.value].owner == userId
    else exists k | k in sensors :: sensors[k].owner == userId
  }

  /** `handleAlertConfigSync`: an op without a payload fails reading its
      `sensorId`; one for a sensor the user does not own fails; otherwise creates and updates follow
      last-write-wins and a delete does nothing. The upsert spreads the
      whole payload, so a present `sensorId` is written too. */
  function ApplyAlertConfig(st: Store, userId: string, op: Op): (r: Result<Store, string>)
    ensures r.Failure? <==> op.payload.None? || !OwnsSensor(st.sensors, userId, op.payload.value.sensorId)
    ensures r.Failure? ==> r.error == if op.payload.None? then PayloadUnreadable else AccessDenied
    ensures r.Success? ==> r.value.sensors == st.sensors && r.value.readings == st.readings
    ensures r.Success? && op.kind == Delete ==> r.value == st
    ensures r.Success? && op.kind != Delete ==>
      var id := op.resourceId;
      if id in st.configs && st.configs[id].updatedAt >= op.timestamp then r.value == st
      else
        && r.value.configs.Keys == st.configs.Keys + {id}
        && r.value.configs[id].updatedAt == op.timestamp
        && (op.payload.value.sensorId.Some? ==> r.value.configs[id].sensorId == op.payload.value.sensorId)
        && (op.payload.value.sensorId.None? && id in st.configs ==> r.value.configs[id].sensorId == st.configs[id].sensorId)
        && (forall f | f in op.payload.value.fields :: f in r.value.configs[id].fields
              && r.value.configs[id].fields[f] == op.payload.value.fields[f])
        && (forall f | id in st.configs && f in st.configs[id].fields && f !in op.payload.value.fields ::
              f in r.value.configs[id].fields && r.value.configs[id].fields[f] == st.configs[id].fields[f])
        && (forall k | k in st.configs && k != id :: r.value.configs[k] == st.configs[k])
  {
    if op.payload.None? then Failure(PayloadUnreadable)
    else if !OwnsSensor(st.sensors, userId, op.payload.value.sensorId) then Failure(AccessDenied)
    else if op.kind == Delete then Success(st)
    else
      var id := op.resourceId;
      if id in st.configs && st.configs[id].updatedAt >= op.timestamp then Success(st)
      else
        var merged := (if id in st.configs then st.configs[id].fields else map[]) + op.payload.value.fields;
        var sensorId := if op.payload.value.sensorId.Some? then op.payload.value.sensorId
                        else if id in st.configs then st.configs[id].sensorId else None;
        Success(st.(configs := st.configs[id := ConfigRow(sensorId, merged, op.timestamp)]))
  }

  /** One operation, dispatched on its resource. */
  function ApplyOp(st: Store, userId: string, op: Op): Result<Store, string> {
    match op.resource
    case SensorResource => Success(ApplySensor(st, userId, op))
    case ReadingResource => ApplyReading(st, op)
    case AlertConfigResource => ApplyAlertConfig(st, userId, op)
  }

  /** The ops that fail: a reading create without a payload, and an alert
      configuration op without a payload or for a sensor the user does not
      own. Sensor ops never fail. */
  predicate OpFails(st: Store, userId: string, op: Op) {
    match op.resource
    case SensorResource => false
    case ReadingResource => op.kind == Create && op.payload.None?
    case AlertConfigResource => op.payload.None? || !OwnsSensor(st.sensors, userId, op.payload.value.sensorId)
  }

  /** An op fails exactly in the listed cases, with the message of its
      case. */
  lemma ApplyOpFails(st: Store, userId: string, op: Op)
    ensures ApplyOp(st, userId, op).Failure? <==> OpFails(st, userId, op)
    ensures ApplyOp(st, userId, op).Failure? ==>
      ApplyOp(st, userId, op).error
        == if op.resource == ReadingResource then DataMissing
           else if op.payload.None? then PayloadUnreadable else AccessDenied
  {
  }

  datatype SyncError = SyncError(op: Op, message: string)

  datatype Results = Results(success: nat, failed: nat, errors: seq<SyncError>, store: Store)

  /** The loop over the (already ordered) operations: each is applied to
      the store left by the previous ones; a failure is counted, recorded
      and leaves the store as it was. */
  function Process(st: Store, userId: string, ops: seq<Op>): (r: Results)
    ensures r.success + r.failed == |ops|
    ensures r.failed == |r.errors|
    ensures forall i | 0 <= i < |r.errors| :: r.errors[i].op in ops
    ensures forall i | 0 <= i < |r.errors| :: r.errors[i].message in {AccessDenied, PayloadUnreadable, DataMissing}
    ensures forall i | 0 <= i < |r.errors| :: r.errors[i].op.resource != SensorResource
    ensures forall i | 0 <= i < |r.errors| :: r.errors[i].op.payload.Some? ==>
      r.errors[i].op.resource == AlertConfigResource && r.errors[i].message == AccessDenied
    decreases |ops|
  {
    if |ops| == 0 then Results(0, 0, [], st)
    else
      var last := ops[|ops| - 1];
      var before := Process(st, userId, ops[..|ops| - 1]);
      assert forall o | o in ops[..|ops| - 1] :: o in ops;
      match ApplyOp(before.store, userId, last)
      case Success(st') => Results(before.success + 1, before.failed, before.errors, st')
      case Failure(msg) => Results(before.success, before.failed + 1, before.errors + [SyncError(last, msg)], before.store)
  }

  function Timestamp(op: Op): int {
    op.timestamp
  }

  /** `processBatchSync(userId, operations)`: the operations are applied in
      non-decreasing timestamp order (equal timestamps keep their input
      order); the input sequence itself is a value and is not reordered. */
  function ProcessBatchSync(st: Store, userId: string, ops: seq<Op>): (r: Results)
    ensures r.success + r.failed == |ops|
    ensures r.failed == |r.errors|
    ensures forall i | 0 <= i < |r.errors| :: r.errors[i].op in ops
  {
    var sorted := SortByKey(ops, Timestamp);
    assert forall o | o in sorted :: o in ops by {
      forall o | o in sorted ensures o in ops {
        assert o in multiset(sorted);
      }
    }
    Process(st, userId, sorted)
  }

  // ---------------------------------------------------------------------
  // Properties
  // ---------------------------------------------------------------------

  /** A batch already in timestamp order is applied as given. */
  lemma OrderedBatchAppliedAsGiven(st: Store, userId: string, ops: seq<Op>)
    requires SortedBy(ops, Timestamp)
    ensures ProcessBatchSync(st, userId, ops) == Process(st, userId, ops)
  {
    SortSortedIdentity(ops, Timestamp);
  }

  /** Operations sharing a timestamp are applied in their input order. */
  lemma EqualTimestampsKeepOrder(ops: seq<Op>, t: int)
    ensures WithKey(SortByKey(ops, Timestamp), Timestamp, t) == WithKey(ops, Timestamp, t)
  {
    SortStable(ops, Timestamp, t);
  }

  /** No single operation lowers the `updatedAt` of a sensor that is still
      there afterwards. */
  lemma OpKeepsSensorTimes(st: Store, userId: string, op: Op, id: string)
    requires id in st.sensors
    ensures var r := ApplyOp(st, userId, op);
      r.Success? && id in r.value.sensors ==> r.value.sensors[id].updatedAt >= st.sensors[id].updatedAt
  {
  }

  /** Without sensor deletes, a batch never lowers any sensor's `updatedAt`
      and never loses a sensor. */
  lemma {:induction false} BatchKeepsSensorTimes(st: Store, userId: string, ops: seq<Op>, id: string)
    requires id in st.sensors
    requires forall i | 0 <= i < |ops| :: !(ops[i].resource == SensorResource && ops[i].kind == Delete)
    ensures var r := Process(st, userId, ops);
      id in r.store.sensors && r.store.sensors[id].updatedAt >= st.sensors[id].updatedAt
    decreases |ops|
  {
    if |ops| > 0 {
      var init := ops[..|ops| - 1];
      BatchKeepsSensorTimes(st, userId, init, id);
      var before := Process(st, userId, init);
      OpKeepsSensorTimes(before.store, userId, ops[|ops| - 1], id);
    }
  }

  /** Replaying a sensor or alert configuration write is a no-op: the row
      already carries its timestamp. (A replayed reading create inserts a
      second row.) */
  lemma ReplayIsNoOp(st: Store, userId: string, op: Op)
    requires op.kind != Delete && op.resource != ReadingResource
    requires ApplyOp(st, userId, op).Success?
    ensures var once := ApplyOp(st, userId, op).value;
      ApplyOp(once, userId, op) == Success(once)
  {
  }

  /** Of two writes to one sensor, the later timestamp wins in either order
      of arrival: the row ends with the later timestamp and with the later
      payload's values for the columns it names. */
  lemma LaterWriteWins(st: Store, userId: string, early: Op, late: Op)
    requires early.resource == SensorResource && late.resource == SensorResource
    requires early.kind != Delete && late.kind != Delete
    requires early.resourceId == late.resourceId && early.timestamp < late.timestamp
    requires !(late.resourceId in st.sensors && st.sensors[late.resourceId].updatedAt >= late.timestamp)
    ensures var a := ApplyOp(ApplyOp(st, userId, early).value, userId, late).value;
      var b := ApplyOp(ApplyOp(st, userId, late).value, userId, early).value;
      var id := late.resourceId;
      && a.sensors[id].updatedAt == late.timestamp && b.sensors[id].updatedAt == late.timestamp
      && (forall c | c in PayloadFields(late.payload) :: a.sensors[id].fields[c] == PayloadFields(late.payload)[c])
      && (forall c | c in PayloadFields(late.payload) :: b.sensors[id].fields[c] == PayloadFields(late.payload)[c])
  {
  }

  /** A sensor delete leaves every other user's sensors alone. */
  lemma DeleteScopedToUser(st: Store, userId: string, op: Op, id: string)
    requires op.resource == SensorResource && op.kind == Delete
    requires id in st.sensors && st.sensors[id].owner != userId
    ensures var st' := ApplyOp(st, userId, op).value;
      id in st'.sensors && st'.sensors[id] == st.sensors[id]
  {
  }

  /** A written alert configuration with a `sensorId` in its payload now
      belongs to that sensor, which the user owns. (The unique `sensorId`
      column, which makes the database reject a write onto a sensor that
      already has a configuration, is not part of this model.) */
  lemma ConfigFollowsPayloadSensor(st: Store, userId: string, op: Op)
    requires op.kind != Delete && op.payload.Some? && op.payload.value.sensorId.Some?
    requires ApplyAlertConfig(st, userId, op).Success?
    requires !(op.resourceId in st.configs && st.configs[op.resourceId].updatedAt >= op.timestamp)
    ensures var c := ApplyAlertConfig(st, userId, op).value.configs[op.resourceId];
      && c.sensorId == op.payload.value.sensorId
      && c.sensorId.value in st.sensors && st.sensors[c.sensorId.value].owner == userId
  {
  }

  /** A sensor write is not scoped to the user: a newer write overwrites a
      row another user owns (keeping that owner). */
  lemma SensorWriteIgnoresOwner(st: Store, userId: string, op: Op)
    requires op.resource == SensorResource && op.kind != Delete
    requires op.resourceId in st.sensors && st.sensors[op.resourceId].owner != userId
    requires st.sensors[op.resourceId].updatedAt < op.timestamp
    ensures var st' := ApplyOp(st, userId, op).value;
      && st'.sensors[op.resourceId].updatedAt == op.timestamp
      && st'.sensors[op.resourceId].owner == st.sensors[op.resourceId].owner
  {
  }

  /** Readings only grow: one row per create, in batch order. */
  lemma {:induction false} ReadingsOnlyGrow(st: Store, userId: string, ops: seq<Op>)
    ensures var r := Process(st, userId, ops);
      |st.readings| <= |r.store.readings| <= |st.readings| + |ops|
      && r.store.readings[..|st.readings|] == st.readings
    decreases |ops|
  {
    if |ops| > 0 {
      var init := ops[..|ops| - 1];
      ReadingsOnlyGrow(st, userId, init);
      var before := Process(st, userId, init);
      var r := Process(st, userId, ops);
      assert r.store.readings[..|before.store.readings|] == before.store.readings;
    }
  }
}
