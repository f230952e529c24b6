/** Storage and retrieval of sensor readings: single and batch inserts
    (the timestamp defaults to `now`), and the history query of a sensor,
    with its ownership check, optional date range, newest-first order and
    paging. Measurements are exact reals; rows get their id from a
    counter. */
module SensorData {
  import opened Wrappers
  import opened Ordering
  import Pagination
  import Sensors

  /** The measurement columns; each may be absent. */
  datatype Measurements = Measurements(temperature: Option<real>, humidity: Option<real>, co2: Option<real>,
                                       pm25: Option<real>, tvoc: Option<real>, pressure: Option<real>,
                                       waterLevel: Option<real>)

  datatype ReadingInput = ReadingInput(sensorId: nat, values: Measurements, timestamp: Option<int>)

  datatype Reading = Reading(id: nat, sensorId: nat, values: Measurements, timestamp: int)

  datatype ReadingTable = ReadingTable(rows: seq<Reading>, nextId: nat)

  /** The row an input becomes: every measurement copied, the timestamp
      `data.timestamp || new Date()` (a date is always truthy). */
  function RowOf(data: ReadingInput, id: nat, now: int): (r: Reading)
    ensures r.sensorId == data.sensorId && r.values == data.values
    ensures data.timestamp.Some? ==> r.timestamp == data.timestamp.value
    ensures data.timestamp.None? ==> r.timestamp == now
  {
    Reading(id, data.sensorId, data.values, if data.timestamp.Some? then data.timestamp.value else now)
  }

  /** `createReading(data)` at time `now`. */
  function CreateReading(t: ReadingTable, data: ReadingInput, now: int): (r: (Reading, ReadingTable))
    ensures r.1.rows == t.rows + [r.0] && r.1.nextId == t.nextId + 1
    ensures r.0 == RowOf(data, t.nextId, now)
  {
    var row := RowOf(data, t.nextId, now);
    (row, ReadingTable(t.rows + [row], t.nextId + 1))
  }

  /** `createReadingsBatch(readings)` at time `now`: one row per input, in
      input order; the result is the number of rows. */
  function CreateReadingsBatch(t: ReadingTable, inputs: seq<ReadingInput>, now: int): (r: (nat, ReadingTable))
    ensures r.0 == |inputs|
    ensures r.1.nextId == t.nextId + |inputs|
    ensures |r.1.rows| == |t.rows| + |inputs| && r.1.rows[..|t.rows|] == t.rows
    ensures forall i | 0 <= i < |inputs| :: r.1.rows[|t.rows| + i] == RowOf(inputs[i], t.nextId + i, now)
  {
    var added := Added(inputs, t.nextId, now);
    assert (t.rows + added)[..|t.rows|] == t.rows;
    (|inputs|, ReadingTable(t.rows + added, t.nextId + |inputs|))
  }

  /** The rows the inputs become, with ids from `start` on. */
  function Added(inputs: seq<ReadingInput>, start: nat, now: int): (rows: seq<Reading>)
    ensures |rows| == |inputs|
    ensures forall i | 0 <= i < |inputs| :: rows[i] == RowOf(inputs[i], start + i, now)
  {
    seq(|inputs|, i requires 0 <= i < |inputs| => RowOf(inputs[i], start + i, now))
  }

  lemma AddedCons(inputs: seq<ReadingInput>, start: nat, now: int)
    requires |inputs| > 0
    ensures Added(inputs, start, now) == [RowOf(inputs[0], start, now)] + Added(inputs[1..], start + 1, now)
  {
    var a := Added(inputs, start, now);
    var b := [RowOf(inputs[0], start, now)] + Added(inputs[1..], start + 1, now);
    forall i | 0 <= i < |a| ensures a[i] == b[i] {
      if i > 0 {
        assert b[i] == Added(inputs[1..], start + 1, now)[i - 1];
      }
    }
  }

  /** Inserting one by one at the same instant. */
  function CreateEach(t: ReadingTable, inputs: seq<ReadingInput>, now: int): ReadingTable
    decreases |inputs|
  {
    if |inputs| == 0 then t
    else CreateEach(CreateReading(t, inputs[0], now).1, inputs[1..], now)
  }

  /** Inserting one by one appends the rows of the inputs, in order. */
  lemma {:induction false} CreateEachAppends(t: ReadingTable, inputs: seq<ReadingInput>, now: int)
    ensures CreateEach(t, inputs, now) == ReadingTable(t.rows + Added(inputs, t.nextId, now), t.nextId + |inputs|)
    decreases |inputs|
  {
    if |inputs| == 0 {
      assert t.rows + Added(inputs, t.nextId, now) == t.rows;
    } else {
      var row := RowOf(inputs[0], t.nextId, now);
      var t1 := ReadingTable(t.rows + [row], t.nextId + 1);
      assert CreateEach(t, inputs, now) == CreateEach(t1, inputs[1..], now);
      CreateEachAppends(t1, inputs[1..], now);
      AppendFirstRow(t.rows, inputs, t.nextId, now);
    }
  }

  lemma AppendFirstRow(rows: seq<Reading>, inputs: seq<ReadingInput>, start: nat, now: int)
    requires |inputs| > 0
    ensures rows + Added(inputs, start, now) == (rows + [RowOf(inputs[0], start, now)]) + Added(inputs[1..], start + 1, now)
  {
    AddedCons(inputs, start, now);
    var row := RowOf(inputs[0], start, now);
    var rest := Added(inputs[1..], start + 1, now);
    assert (rows + [row]) + rest == rows + ([row] + rest);
  }

  /** The batch insert stores what inserting each input in turn would. */
  lemma BatchIsSequential(t: ReadingTable, inputs: seq<ReadingInput>, now: int)
    ensures CreateReadingsBatch(t, inputs, now).1 == CreateEach(t, inputs, now)
  {
    CreateEachAppends(t, inputs, now);
  }

  // ---------------------------------------------------------------------
  // getSensorHistory
  // ---------------------------------------------------------------------

  datatype HistoryParams = HistoryParams(startDate: Option<int>, endDate: Option<int>, page: Option<nat>, limit: Option<nat>)

  /** `where.timestamp`: present iff a bound was given, holding the bounds
      given. */
  datatype Bounds = Bounds(gte: Option<int>, lte: Option<int>)

  datatype Where = Where(sensorId: nat, timestamp: Option<Bounds>)

  function WhereOf(sensorId: nat, params: HistoryParams): (w: Where)
    ensures w.sensorId == sensorId
    ensures w.timestamp.Some? <==> params.startDate.Some? || params.endDate.Some?
    ensures w.timestamp.Some? ==> w.timestamp.value == Bounds(params.startDate, params.endDate)
  {
    if params.startDate.Some? || params.endDate.Some? then Where(sensorId, Some(Bounds(params.startDate, params.endDate)))
    else Where(sensorId, None)
  }

  /** A reading satisfies the filter. */
  predicate Matches(w: Where, r: Reading) {
    r.sensorId == w.sensorId
    && (w.timestamp.Some? && w.timestamp.value.gte.Some? ==> r.timestamp >= w.timestamp.value.gte.value)
    && (w.timestamp.Some? && w.timestamp.value.lte.Some? ==> r.timestamp <= w.timestamp.value.lte.value)
  }

  function Filter(rows: seq<Reading>, w: Where): (r: seq<Reading>)
    ensures forall x :: x in r <==> x in rows && Matches(w, x)
    ensures |r| <= |rows|
  {
    if |rows| == 0 then []
    else
      var rest := Filter(rows[1..], w);
      assert forall x :: x in rows <==> x == rows[0] || x in rows[1..];
      if Matches(w, rows[0]) then [rows[0]] + rest else rest
  }

  /** The sort key of `orderBy: { timestamp: 'desc' }`. */
  function NewestFirst(r: Reading): int {
    -r.timestamp
  }

  datatype HistoryPage = HistoryPage(items: seq<Reading>, page: int, limit: int, total: nat, hasMore: bool)

  const AccessDenied := "Sensor not found or access denied"

  /** The query of `getSensorHistory` once ownership is settled: the
      sensor's readings that meet the date filter, newest first, from
      position `(page - 1) * limit` on, as many as `limit` allows and the
      total leaves. */
  function ReadingsPage(readings: ReadingTable, sensorId: nat, params: HistoryParams): (h: HistoryPage)
    ensures h.page >= 1 && 1 <= h.limit <= 100 && |h.items| <= h.limit
    ensures h.total == |Filter(readings.rows, WhereOf(sensorId, params))|
    ensures var skip := Pagination.SkipOf(h.page, h.limit);
      |h.items| == if h.total <= skip then 0 else Min(h.limit, h.total - skip)
    ensures var skip := Pagination.SkipOf(h.page, h.limit);
      var selected := SortByKey(Filter(readings.rows, WhereOf(sensorId, params)), NewestFirst);
      forall i | 0 <= i < |h.items| :: skip + i < |selected| && h.items[i] == selected[skip + i]
    ensures forall i | 0 <= i < |h.items| :: h.items[i] in readings.rows && h.items[i].sensorId == sensorId
    ensures forall i | 0 <= i < |h.items| ::
      (params.startDate.Some? ==> h.items[i].timestamp >= params.startDate.value)
      && (params.endDate.Some? ==> h.items[i].timestamp <= params.endDate.value)
    ensures forall i, j | 0 <= i < j < |h.items| :: h.items[i].timestamp >= h.items[j].timestamp
  {
    var q := Pagination.ServiceQuery(params.page, params.limit);
    var w := WhereOf(sensorId, params);
    var selected := SortByKey(Filter(readings.rows, w), NewestFirst);
    var items := Window(selected, q.skip, q.limit);
    var h := HistoryPage(items, q.page, q.limit, |selected|, HasMore(|selected|, q.skip, |items|));
    SelectedPage(readings.rows, sensorId, params, selected, q.skip, h);
    assert Pagination.SkipOf(q.page, q.limit) == q.skip;
    h
  }

  lemma SelectedPage(rows: seq<Reading>, sensorId: nat, params: HistoryParams, selected: seq<Reading>, skip: nat, h: HistoryPage)
    requires selected == SortByKey(Filter(rows, WhereOf(sensorId, params)), NewestFirst)
    requires h.limit >= 0 && h.total == |selected| && h.items == Window(selected, skip, h.limit)
    ensures |h.items| == if h.total <= skip then 0 else Min(h.limit, h.total - skip)
    ensures forall i | 0 <= i < |h.items| :: skip + i < |selected| && h.items[i] == selected[skip + i]
    ensures forall i | 0 <= i < |h.items| :: h.items[i] in rows && h.items[i].sensorId == sensorId
    ensures forall i | 0 <= i < |h.items| ::
      (params.startDate.Some? ==> h.items[i].timestamp >= params.startDate.value)
      && (params.endDate.Some? ==> h.items[i].timestamp <= params.endDate.value)
    ensures forall i, j | 0 <= i < j < |h.items| :: h.items[i].timestamp >= h.items[j].timestamp
  {
    SelectedMembers(rows, sensorId, params, selected, skip, h.limit);
    SelectedOrder(selected, skip, h.limit);
  }

  /** `getSensorHistory(sensorId, userId, params)`: the thrown error is the
      failure, raised exactly when the user owns no such sensor; otherwise
      the page of `ReadingsPage`. */
  function GetSensorHistory(sensors: Sensors.Table, readings: ReadingTable, sensorId: nat, userId: string,
                            params: HistoryParams): (r: Result<HistoryPage, string>)
    ensures r.Failure? <==> Sensors.GetSensorById(sensors, sensorId, userId).None?
    ensures r.Failure? ==> r.error == AccessDenied
    ensures r.Success? ==> r.value == ReadingsPage(readings, sensorId, params)
  {
    if Sensors.GetSensorById(sensors, sensorId, userId).None? then Failure(AccessDenied)
    else Success(ReadingsPage(readings, sensorId, params))
  }

  lemma SelectedMembers(rows: seq<Reading>, sensorId: nat, params: HistoryParams, selected: seq<Reading>, skip: nat, take: nat)
    requires selected == SortByKey(Filter(rows, WhereOf(sensorId, params)), NewestFirst)
    ensures forall i | 0 <= i < |Window(selected, skip, take)| ::
      Window(selected, skip, take)[i] in rows && Window(selected, skip, take)[i].sensorId == sensorId
    ensures forall i | 0 <= i < |Window(selected, skip, take)| ::
      (params.startDate.Some? ==> Window(selected, skip, take)[i].timestamp >= params.startDate.value)
      && (params.endDate.Some? ==> Window(selected, skip, take)[i].timestamp <= params.endDate.value)
  {
    var w := WhereOf(sensorId, params);
    var items := Window(selected, skip, take);
    forall i | 0 <= i < |items| ensures items[i] in rows && Matches(w, items[i]) {
      assert items[i] == selected[skip + i];
      assert selected[skip + i] in multiset(selected);
    }
  }

  lemma SelectedOrder(selected: seq<Reading>, skip: nat, take: nat)
    requires SortedBy(selected, NewestFirst)
    ensures forall i, j | 0 <= i < j < |Window(selected, skip, take)| ::
      Window(selected, skip, take)[i].timestamp >= Window(selected, skip, take)[j].timestamp
  {
    WindowSorted(selected, skip, take, NewestFirst);
    var items := Window(selected, skip, take);
    assert SortedBy(items, NewestFirst);
  }

  /** `hasMore` holds iff the next page of the same query is not empty. */
  lemma HistoryHasMore(sensors: Sensors.Table, readings: ReadingTable, sensorId: nat, userId: string, params: HistoryParams)
    requires GetSensorHistory(sensors, readings, sensorId, userId, params).Success?
    ensures var h := GetSensorHistory(sensors, readings, sensorId, userId, params).value;
      var q := Pagination.ServiceQuery(params.page, params.limit);
      var selected := SortByKey(Filter(readings.rows, WhereOf(sensorId, params)), NewestFirst);
      h.hasMore <==> |Window(selected, q.skip + q.limit, q.limit)| > 0
  {
    var q := Pagination.ServiceQuery(params.page, params.limit);
    var selected := SortByKey(Filter(readings.rows, WhereOf(sensorId, params)), NewestFirst);
    HasMoreIffNextWindow(selected, q.skip, q.limit);
  }

  /** Without dates, the history counts every reading of the sensor; a
      date range only narrows it. */
  lemma DatesOnlyNarrow(rows: seq<Reading>, sensorId: nat, params: HistoryParams)
    ensures var all := Filter(rows, WhereOf(sensorId, params.(startDate := None, endDate := None)));
      (forall x :: x in all <==> x in rows && x.sensorId == sensorId)
      && forall x | x in Filter(rows, WhereOf(sensorId, params)) :: x in all
  {
  }

  /** A reading stored for a sensor the user owns, with no timestamp given,
      is found in the history without dates. */
  lemma StoredReadingListed(sensors: Sensors.Table, readings: ReadingTable, data: ReadingInput, userId: string, now: int)
    requires Sensors.GetSensorById(sensors, data.sensorId, userId).Some?
    ensures var (row, t') := CreateReading(readings, data, now);
      var h := GetSensorHistory(sensors, t', data.sensorId, userId, HistoryParams(None, None, None, None));
      h.Success? && h.value.total >= 1
  {
    var (row, t') := CreateReading(readings, data, now);
    var all := Filter(t'.rows, WhereOf(data.sensorId, HistoryParams(None, None, None, None)));
    assert row in t'.rows;
    assert row in all;
  }

  /** `getLatestReading(sensorId, userId)`: the newest reading of an owned
      sensor, if any. */
  function GetLatestReading(sensors: Sensors.Table, readings: ReadingTable, sensorId: nat, userId: string): (r: Result<Option<Reading>, string>)
    ensures r.Failure? <==> Sensors.GetSensorById(sensors, sensorId, userId).None?
    ensures r.Success? && r.value.Some? ==>
      r.value.value in readings.rows && r.value.value.sensorId == sensorId
      && forall x | x in readings.rows && x.sensorId == sensorId :: x.timestamp <= r.value.value.timestamp
    ensures r.Success? && r.value.None? ==> forall x | x in readings.rows :: x.sensorId != sensorId
  {
    if Sensors.GetSensorById(sensors, sensorId, userId).None? then Failure(AccessDenied)
    else
      var selected := NewestOf(readings.rows, sensorId);
      if |selected| == 0 then Success(None)
      else
        FirstIsNewest(selected);
        Success(Some(selected[0]))
  }

  /** The readings of one sensor, newest first. */
  function NewestOf(rows: seq<Reading>, sensorId: nat): (s: seq<Reading>)
    ensures SortedBy(s, NewestFirst)
    ensures forall x :: x in s <==> x in rows && x.sensorId == sensorId
  {
    var f := Filter(rows, Where(sensorId, None));
    var s := SortByKey(f, NewestFirst);
    assert forall x :: x in s <==> x in f by {
      forall x ensures x in s <==> x in f {
        assert x in s <==> x in multiset(s);
        assert x in f <==> x in multiset(f);
      }
    }
    s
  }

  /** The head of a newest-first sequence is at least as recent as every
      element. */
  lemma FirstIsNewest(s: seq<Reading>)
    requires SortedBy(s, NewestFirst) && |s| > 0
    ensures forall x | x in s :: x.timestamp <= s[0].timestamp
  {
    forall x | x in s ensures x.timestamp <= s[0].timestamp {
      var k :| 0 <= k < |s| && s[k] == x;
      if k > 0 {
        assert NewestFirst(s[0]) <= NewestFirst(s[k]);
      }
    }
  }
}
