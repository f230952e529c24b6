/** Sensor registration and management: the request schemas of the sensor
    routes, the sensor service over a table of sensors, and the status
    codes the routes answer with. A sensor's MAC is unique per user (a
    second create is the database's P2002 error, answered with 409). Rows
    get their id from a counter and `createdAt` from the `now` passed in. */
module Sensors {
  import opened Wrappers
  import opened Text
  import opened Bytes
  import opened Ordering
  import Pagination
  import BleCodec

  // ---------------------------------------------------------------------
  // The request schemas
  // ---------------------------------------------------------------------

  /** `/^([0-9A-Fa-f]{2}[:-]){5}([0-9A-Fa-f]{2})$/`: six pairs of hex digits
      of either case, each of the five separators ':' or '-' (they may
      differ). */
  predicate IsMac(mac: string) {
    |mac| == 17 && forall i | 0 <= i < 17 ::
      if i % 3 == 2 then mac[i] == ':' || mac[i] == '-' else IsHexDigit(mac[i])
  }

  /** The pairs of hex digits of a well-formed MAC, in order. */
  function MacPairs(mac: string): (pairs: seq<string>)
    requires IsMac(mac)
    ensures |pairs| == 6
    ensures forall k | 0 <= k < 6 :: |pairs[k]| == 2 && AllHexDigits(pairs[k])
  {
    seq(6, k requires 0 <= k < 6 => mac[3 * k..3 * k + 2])
  }

  /** A MAC rendered by the telemetry codec passes the schema, and its
      pairs are the hex renderings of the six bytes. */
  lemma ExtractedMacIsValid(data: seq<byte>, offset: nat)
    requires |data| >= offset + 6
    ensures var mac := BleCodec.ExtractMac(data, offset).value;
      IsMac(mac) && forall k | 0 <= k < 6 :: MacPairs(mac)[k] == Hex2(data[offset + k])
  {
    var bs := data[offset..offset + 6];
    var mac := BleCodec.MacString(bs);
    BleCodec.MacStringShape(bs);
    SeparatorsAccepted(mac);
    forall k | 0 <= k < 6 ensures MacPairs(mac)[k] == Hex2(data[offset + k]) {
      BleCodec.MacGroup(bs, k);
      assert bs[k] == data[offset + k];
    }
  }

  /** Every colon-separated MAC passes; a dash separator passes too. */
  lemma SeparatorsAccepted(mac: string)
    requires BleCodec.IsColonMac(mac)
    ensures IsMac(mac)
    ensures IsMac(mac[2 := '-'])
  {
  }

  /** `z.enum([...])` of the device types. */
  predicate IsDeviceTypeName(name: string) {
    BleCodec.DeviceTypeFromName(name).Some?
  }

  /** The accepted names are exactly the four device types' names. */
  lemma DeviceTypeNames(name: string)
    ensures IsDeviceTypeName(name) <==> exists t: BleCodec.DeviceType :: t.Name() == name
  {
    if IsDeviceTypeName(name) {
      assert BleCodec.DeviceTypeFromName(name).value.Name() == name;
    }
  }

  /** `z.string().min(1).max(50).optional()`: the bounds count UTF-16 code
      units. */
  predicate AliasValid(alias: Option<string>) {
    alias.None? || 1 <= Utf16Length(alias.value) <= 50
  }

  /** Within the Basic Multilingual Plane the alias bounds count
      characters; an alias of 26 characters from outside it is already too
      long. */
  lemma AliasBoundsCountUnits(alias: string)
    ensures (forall i | 0 <= i < |alias| :: alias[i] as int <= 0xFFFF) ==>
      (AliasValid(Some(alias)) <==> 1 <= |alias| <= 50)
    ensures (forall i | 0 <= i < |alias| :: alias[i] as int > 0xFFFF) && |alias| == 26 ==>
      !AliasValid(Some(alias))
  {
  }

  datatype CreateBody = CreateBody(mac: Option<string>, alias: Option<string>, deviceType: Option<string>)

  /** `createSensorSchema`. */
  predicate CreateValid(b: CreateBody) {
    b.mac.Some? && IsMac(b.mac.value) && AliasValid(b.alias)
    && b.deviceType.Some? && IsDeviceTypeName(b.deviceType.value)
  }

  /** `/^\d+$/`. */
  predicate IsDigits(s: string) {
    |s| >= 1 && AllDigits(s)
  }

  datatype PageParams = PageParams(page: Option<nat>, limit: Option<nat>)

  /** `paginationSchema.safeParse(req.query)`, falling back to `{}`: the
      numbers are those of the digit strings, and either field failing
      drops both. */
  function ParsePagination(page: Option<string>, limit: Option<string>): (p: PageParams)
    ensures (page.Some? && !IsDigits(page.value)) || (limit.Some? && !IsDigits(limit.value)) ==>
      p == PageParams(None, None)
    ensures (page.None? || IsDigits(page.value)) && (limit.None? || IsDigits(limit.value)) ==>
      && (p.page.Some? <==> page.Some?) && (p.limit.Some? <==> limit.Some?)
      && (page.Some? ==> p.page.value == DecimalValue(page.value))
      && (limit.Some? ==> p.limit.value == DecimalValue(limit.value))
  {
    if (page.Some? && !IsDigits(page.value)) || (limit.Some? && !IsDigits(limit.value)) then PageParams(None, None)
    else PageParams(if page.Some? then Some(DecimalValue(page.value)) else None,
                    if limit.Some? then Some(DecimalValue(limit.value)) else None)
  }

  // ---------------------------------------------------------------------
  // The sensor service
  // ---------------------------------------------------------------------

  /** The alert configuration created with a sensor. */
  datatype AlertDefaults = AlertDefaults(isEnabled: bool, cooldownMinutes: int)

  /** `isActive` is `None` until an update writes it (the column's own
      default applies until then). */
  datatype Sensor = Sensor(id: nat, userId: string, mac: string, alias: Option<string>,
                           deviceType: BleCodec.DeviceType, isActive: Option<bool>,
                           createdAt: int, alertConfig: AlertDefaults)

  datatype Table = Table(rows: seq<Sensor>, nextId: nat)

  /** Row ids are unique and below the next id. */
  predicate IdsUnique(t: Table) {
    (forall i | 0 <= i < |t.rows| :: t.rows[i].id < t.nextId)
    && (forall i, j | 0 <= i < j < |t.rows| :: t.rows[i].id != t.rows[j].id)
  }

  predicate MacTaken(t: Table, userId: string, mac: string) {
    exists i | 0 <= i < |t.rows| :: t.rows[i].userId == userId && t.rows[i].mac == mac
  }

  /** `createSensor`: the new row with its default alert configuration
      (enabled, 15 minutes of cooldown); `None` is the P2002 error of a MAC
      the user already registered. */
  function CreateSensor(t: Table, userId: string, mac: string, alias: Option<string>,
                        deviceType: BleCodec.DeviceType, now: int): (r: Option<(Sensor, Table)>)
    ensures r.None? <==> MacTaken(t, userId, mac)
    ensures r.Some? ==>
      var (s, t') := r.value;
      && s == Sensor(t.nextId, userId, mac, alias, deviceType, None, now, AlertDefaults(true, 15))
      && t'.rows == t.rows + [s] && t'.nextId == t.nextId + 1
      && (IdsUnique(t) ==> IdsUnique(t'))
  {
    if MacTaken(t, userId, mac) then None
    else
      var s := Sensor(t.nextId, userId, mac, alias, deviceType, None, now, AlertDefaults(true, 15));
      Some((s, Table(t.rows + [s], t.nextId + 1)))
  }

  function UserSensors(rows: seq<Sensor>, userId: string): (r: seq<Sensor>)
    ensures forall s :: s in r <==> s in rows && s.userId == userId
    ensures |r| <= |rows|
  {
    if |rows| == 0 then []
    else
      var rest := UserSensors(rows[1..], userId);
      assert forall s :: s in rows <==> s == rows[0] || s in rows[1..];
      if rows[0].userId == userId then [rows[0]] + rest else rest
  }

  /** The sort key of `orderBy: { createdAt: 'desc' }`. */
  function NewestFirst(s: Sensor): int {
    -s.createdAt
  }

  datatype SensorPage = SensorPage(items: seq<Sensor>, page: int, limit: int, total: nat, hasMore: bool)

  /** `getSensors(userId, params)`: the page holds the user's sensors,
      newest first, from position `(page - 1) * limit` on, as many as
      `limit` allows and the total leaves. */
  function GetSensors(t: Table, userId: string, params: PageParams): (p: SensorPage)
    ensures p.page >= 1 && 1 <= p.limit <= 100 && |p.items| <= p.limit
    ensures p.total == |UserSensors(t.rows, userId)|
    ensures var skip := Pagination.SkipOf(p.page, p.limit);
      |p.items| == if p.total <= skip then 0 else Min(p.limit, p.total - skip)
    ensures var skip := Pagination.SkipOf(p.page, p.limit);
      var mine := SortByKey(UserSensors(t.rows, userId), NewestFirst);
      forall i | 0 <= i < |p.items| :: skip + i < |mine| && p.items[i] == mine[skip + i]
    ensures forall i | 0 <= i < |p.items| :: p.items[i] in t.rows && p.items[i].userId == userId
    ensures forall i, j | 0 <= i < j < |p.items| :: p.items[i].createdAt >= p.items[j].createdAt
  {
    var q := Pagination.ServiceQuery(params.page, params.limit);
    var mine := SortByKey(UserSensors(t.rows, userId), NewestFirst);
    var items := Window(mine, q.skip, q.limit);
    var p := SensorPage(items, q.page, q.limit, |mine|, HasMore(|mine|, q.skip, |items|));
    ListPage(t.rows, userId, mine, q.skip, p);
    assert Pagination.SkipOf(q.page, q.limit) == q.skip;
    p
  }

  lemma ListWindow(rows: seq<Sensor>, userId: string, mine: seq<Sensor>, skip: nat, take: nat)
    requires mine == SortByKey(UserSensors(rows, userId), NewestFirst)
    ensures var items := Window(mine, skip, take);
      && (forall i | 0 <= i < |items| :: items[i] in rows && items[i].userId == userId)
      && (forall i, j | 0 <= i < j < |items| :: items[i].createdAt >= items[j].createdAt)
  {
    var items := Window(mine, skip, take);
    forall i | 0 <= i < |items| ensures items[i] in rows && items[i].userId == userId {
      assert items[i] == mine[skip + i];
      assert mine[skip + i] in multiset(mine);
    }
    assert forall i, j | 0 <= i < j < |items| :: items[i].createdAt >= items[j].createdAt by {
      WindowSorted(mine, skip, take, NewestFirst);
      assert SortedBy(items, NewestFirst);
    }
  }

  lemma ListPage(rows: seq<Sensor>, userId: string, mine: seq<Sensor>, skip: nat, p: SensorPage)
    requires mine == SortByKey(UserSensors(rows, userId), NewestFirst)
    requires p.limit >= 0 && p.total == |mine| && p.items == Window(mine, skip, p.limit)
    ensures forall i | 0 <= i < |p.items| :: p.items[i] in rows && p.items[i].userId == userId
    ensures forall i, j | 0 <= i < j < |p.items| :: p.items[i].createdAt >= p.items[j].createdAt
    ensures |p.items| == if p.total <= skip then 0 else Min(p.limit, p.total - skip)
    ensures forall i | 0 <= i < |p.items| :: skip + i < |mine| && p.items[i] == mine[skip + i]
  {
    ListWindow(rows, userId, mine, skip, p.limit);
  }

  /** Paging through all pages sees every sensor of the user: `hasMore`
      holds iff the next page is not empty. */
  lemma GetSensorsHasMore(t: Table, userId: string, params: PageParams)
    ensures var p := GetSensors(t, userId, params);
      var q := Pagination.ServiceQuery(params.page, params.limit);
      var mine := SortByKey(UserSensors(t.rows, userId), NewestFirst);
      p.hasMore <==> |Window(mine, q.skip + q.limit, q.limit)| > 0
  {
    var q := Pagination.ServiceQuery(params.page, params.limit);
    var mine := SortByKey(UserSensors(t.rows, userId), NewestFirst);
    HasMoreIffNextWindow(mine, q.skip, q.limit);
  }

  /** The row of `id` when the user owns it: `getSensorById`. */
  function GetSensorById(t: Table, id: nat, userId: string): (r: Option<Sensor>)
    ensures r.Some? ==> r.value in t.rows && r.value.id == id && r.value.userId == userId
    ensures r.None? ==> forall i | 0 <= i < |t.rows| :: !(t.rows[i].id == id && t.rows[i].userId == userId)
  {
    FindOwned(t.rows, id, userId)
  }

  function FindOwned(rows: seq<Sensor>, id: nat, userId: string): (r: Option<Sensor>)
    ensures r.Some? ==> r.value in rows && r.value.id == id && r.value.userId == userId
    ensures r.None? ==> forall i | 0 <= i < |rows| :: !(rows[i].id == id && rows[i].userId == userId)
  {
    if |rows| == 0 then None
    else if rows[0].id == id && rows[0].userId == userId then Some(rows[0])
    else
      var rest := FindOwned(rows[1..], id, userId);
      assert forall i | 1 <= i < |rows| :: rows[i] == rows[1..][i - 1];
      rest
  }

  predicate Owned(s: Sensor, id: nat, userId: string) {
    s.id == id && s.userId == userId
  }

  /** The number of rows a `where: { id, userId }` matches. */
  function CountOwned(rows: seq<Sensor>, id: nat, userId: string): (n: nat)
    ensures n <= |rows|
    ensures n == 0 <==> forall i | 0 <= i < |rows| :: !Owned(rows[i], id, userId)
  {
    if |rows| == 0 then 0
    else
      var rest := CountOwned(rows[1..], id, userId);
      assert forall i | 1 <= i < |rows| :: rows[i] == rows[1..][i - 1];
      (if Owned(rows[0], id, userId) then 1 else 0) + rest
  }

  datatype Written = Written(count: nat, table: Table)

  /** `updateSensor`: `updateMany` on the rows matching both id and user,
      writing alias and isActive where given (an undefined value leaves
      the column as it is). */
  function UpdateSensor(t: Table, id: nat, userId: string, alias: Option<string>, isActive: Option<bool>): (w: Written)
    ensures w.count == CountOwned(t.rows, id, userId)
    ensures w.table.nextId == t.nextId && |w.table.rows| == |t.rows|
    ensures forall i | 0 <= i < |t.rows| :: !Owned(t.rows[i], id, userId) ==> w.table.rows[i] == t.rows[i]
    ensures forall i | 0 <= i < |t.rows| :: Owned(t.rows[i], id, userId) ==>
      w.table.rows[i] == t.rows[i].(alias := if alias.Some? then alias else t.rows[i].alias,
                                    isActive := if isActive.Some? then isActive else t.rows[i].isActive)
  {
    var rows := seq(|t.rows|, i requires 0 <= i < |t.rows| =>
      if Owned(t.rows[i], id, userId)
      then t.rows[i].(alias := if alias.Some? then alias else t.rows[i].alias,
                      isActive := if isActive.Some? then isActive else t.rows[i].isActive)
      else t.rows[i]);
    Written(CountOwned(t.rows, id, userId), Table(rows, t.nextId))
  }

  function RemoveOwned(rows: seq<Sensor>, id: nat, userId: string): (r: seq<Sensor>)
    ensures |r| + CountOwned(rows, id, userId) == |rows|
    ensures forall s :: s in r <==> s in rows && !Owned(s, id, userId)
  {
    if |rows| == 0 then []
    else
      var rest := RemoveOwned(rows[1..], id, userId);
      assert forall s :: s in rows <==> s == rows[0] || s in rows[1..];
      if Owned(rows[0], id, userId) then rest else [rows[0]] + rest
  }

  /** `deleteSensor`: `deleteMany` on the rows matching both id and user. */
  function DeleteSensor(t: Table, id: nat, userId: string): (w: Written)
    ensures w.count == CountOwned(t.rows, id, userId)
    ensures w.table.nextId == t.nextId
    ensures |w.table.rows| + w.count == |t.rows|
    ensures forall s :: s in w.table.rows <==> s in t.rows && !Owned(s, id, userId)
  {
    Written(CountOwned(t.rows, id, userId), Table(RemoveOwned(t.rows, id, userId), t.nextId))
  }

  // ---------------------------------------------------------------------
  // The routes' status codes
  // ---------------------------------------------------------------------

  datatype Reply = Reply(status: int, table: Table)

  /** `POST /sensors`: 400 on a schema failure, 409 on a MAC the user
      already has, 201 with the new row otherwise. */
  function CreateRoute(t: Table, userId: string, body: CreateBody, now: int): (r: Reply)
    ensures r.status in {400, 409, 201}
    ensures r.status == 400 <==> !CreateValid(body)
    ensures r.status == 409 <==> CreateValid(body) && MacTaken(t, userId, body.mac.value)
    ensures r.status != 201 ==> r.table == t
    ensures r.status == 201 ==>
      |r.table.rows| == |t.rows| + 1 && r.table.rows[|t.rows|].userId == userId
      && r.table.rows[|t.rows|].mac == body.mac.value && MacTaken(r.table, userId, body.mac.value)
  {
    if !CreateValid(body) then Reply(400, t)
    else
      var created := CreateSensor(t, userId, body.mac.value, body.alias, BleCodec.DeviceTypeFromName(body.deviceType.value).value, now);
      if created.None? then Reply(409, t)
      else
        var (s, t') := created.value;
        assert t'.rows[|t.rows|] == s;
        Reply(201, t')
  }

  /** `PATCH /sensors/:id`: 400 on a schema failure, 404 when no row of the
      user has the id, 200 otherwise. */
  function UpdateRoute(t: Table, id: nat, userId: string, alias: Option<string>, isActive: Option<bool>): (r: Reply)
    ensures r.status in {400, 404, 200}
    ensures r.status == 400 <==> !AliasValid(alias)
    ensures r.status == 404 <==> AliasValid(alias) && GetSensorById(t, id, userId).None?
    ensures r.status != 200 ==> r.table == t
    ensures r.status == 200 ==> r.table == UpdateSensor(t, id, userId, alias, isActive).table
  {
    if !AliasValid(alias) then Reply(400, t)
    else
      var w := UpdateSensor(t, id, userId, alias, isActive);
      if w.count == 0 then Reply(404, t) else Reply(200, w.table)
  }

  /** `DELETE /sensors/:id`: 404 when no row of the user has the id, 200
      otherwise. */
  function DeleteRoute(t: Table, id: nat, userId: string): (r: Reply)
    ensures r.status in {404, 200}
    ensures r.status == 404 <==> GetSensorById(t, id, userId).None?
    ensures r.status == 404 ==> r.table == t
    ensures r.status == 200 ==> r.table == DeleteSensor(t, id, userId).table
  {
    var w := DeleteSensor(t, id, userId);
    if w.count == 0 then Reply(404, t) else Reply(200, w.table)
  }

  // ---------------------------------------------------------------------
  // Properties
  // ---------------------------------------------------------------------

  /** Registering the same MAC twice for one user answers 409 the second
      time; another user may register it. */
  lemma SecondCreateConflicts(t: Table, userId: string, other: string, body: CreateBody, now: int, later: int)
    requires CreateRoute(t, userId, body, now).status == 201
    ensures CreateRoute(CreateRoute(t, userId, body, now).table, userId, body, later).status == 409
    ensures !MacTaken(t, other, body.mac.value) && other != userId ==>
      CreateRoute(CreateRoute(t, userId, body, now).table, other, body, later).status == 201
  {
  }

  /** A created sensor starts with an enabled alert configuration whose
      cooldown lies in the range the alert routes accept. */
  lemma CreatedDefaults(t: Table, userId: string, body: CreateBody, now: int)
    requires CreateRoute(t, userId, body, now).status == 201
    ensures var s := CreateRoute(t, userId, body, now).table.rows[|t.rows|];
      s.alertConfig.isEnabled && 1 <= s.alertConfig.cooldownMinutes <= 1440 && s.createdAt == now
  {
  }

  /** Updates and deletes of one user never touch another user's sensors. */
  lemma WritesScopedToUser(t: Table, id: nat, userId: string, alias: Option<string>, isActive: Option<bool>, k: nat)
    requires k < |t.rows| && t.rows[k].userId != userId
    ensures UpdateRoute(t, id, userId, alias, isActive).table.rows[k] == t.rows[k]
    ensures t.rows[k] in DeleteRoute(t, id, userId).table.rows
  {
  }

  /** After a successful update of an alias, reading the sensor back
      returns the new alias. */
  lemma UpdateThenRead(t: Table, id: nat, userId: string, alias: string)
    requires IdsUnique(t) && 1 <= |alias| <= 50
    requires UpdateRoute(t, id, userId, Some(alias), None).status == 200
    ensures var t' := UpdateRoute(t, id, userId, Some(alias), None).table;
      GetSensorById(t', id, userId).Some? && GetSensorById(t', id, userId).value.alias == Some(alias)
  {
    var t' := UpdateRoute(t, id, userId, Some(alias), None).table;
    var i :| 0 <= i < |t.rows| && Owned(t.rows[i], id, userId);
    assert Owned(t'.rows[i], id, userId);
    var s := GetSensorById(t', id, userId).value;
    var j :| 0 <= j < |t'.rows| && t'.rows[j] == s;
    assert t.rows[j].id == id;
  }

  /** A user's sensor is gone after a successful delete. */
  lemma DeleteThenRead(t: Table, id: nat, userId: string)
    ensures GetSensorById(DeleteRoute(t, id, userId).table, id, userId).None?
  {
    var r := DeleteRoute(t, id, userId);
    if r.status == 200 {
      forall i | 0 <= i < |r.table.rows| ensures !Owned(r.table.rows[i], id, userId) {
        assert r.table.rows[i] in r.table.rows;
      }
    }
  }
}
