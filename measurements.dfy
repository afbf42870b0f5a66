/**
 * Measurement intake and queries (`MeasurementsController`): a shared-key
 * gate, field validation, device auto-registration, append-only insert, and
 * newest-first paging.
 */
module Measurements {

  import opened Wrappers
  import opened Text
  import opened Linq
  import opened Models

  datatype DateTimeKind = Utc | Local | Unspecified

  /** A `DateTime` as deserialised from the request: ticks and kind. */
  datatype DateTime = DateTime(ticks: int, kind: DateTimeKind)

  datatype MeasurementInDto = MeasurementInDto(
    deviceId: string,
    co2: real,
    temperature: real,
    humidity: real,
    timestamp: Option<DateTime>,
    userId: Guid)

  datatype Stored = Stored(message: string, data: Measurement)

  datatype MeasurementPage = MeasurementPage(total: nat, limit: int, offset: int, items: seq<Measurement>)

  datatype RecentMeasurements = RecentMeasurements(count: nat, items: seq<Measurement>)

  const MaxCo2: real := 100000.0

  /**
   * `DateTime.ToUniversalTime()`: a UTC value is kept; a local or
   * unspecified one is shifted by the machine's UTC offset.
   */
  function ToUniversalTime(dt: DateTime, localOffset: int): (r: Instant)
    ensures dt.kind == Utc ==> r == dt.ticks
    ensures dt.kind != Utc ==> r + localOffset == dt.ticks
  {
    if dt.kind == Utc then dt.ticks else dt.ticks - localOffset
  }

  /** The stored timestamp: the supplied one in UTC, or now when none is supplied. */
  function IntakeTimestamp(supplied: Option<DateTime>, now: Instant, localOffset: int): Instant {
    match supplied
    case Some(dt) => ToUniversalTime(dt, localOffset)
    case None => now
  }

  /** The body passes the field checks of `Ingest`. */
  predicate IngestAccepted(dto: Option<MeasurementInDto>) {
    dto.Some? && !IsBlank(dto.value.deviceId) && 0.0 < dto.value.co2 <= MaxCo2
  }

  /** The key `OrderByDescending` sorts measurements on. */
  function Timestamp(m: Measurement): int {
    m.timestamp
  }

  function OfDevice(deviceId: string): Measurement -> bool {
    (m: Measurement) => m.deviceId == deviceId
  }

  /** `Where(m => m.Device_Id == deviceId).OrderByDescending(m => m.CreatedAt)`. */
  function History(measurements: seq<Measurement>, deviceId: string): (r: seq<Measurement>)
    ensures DescendingBy(r, Timestamp)
    ensures multiset(r) == multiset(Where(measurements, OfDevice(deviceId)))
  {
    SortByKeyDesc(Where(measurements, OfDevice(deviceId)), Timestamp)
  }

  class MeasurementsController {
    const db: AppDbContext
    /** The `INTAKE_API_KEY` environment variable, read once at construction. */
    const intakeKey: Option<string>

    constructor (db: AppDbContext, intakeKey: Option<string>)
      ensures this.db == db && this.intakeKey == intakeKey
    {
      this.db := db;
      this.intakeKey := intakeKey;
    }

    /**
     * The shared-key gate: open when no key is configured (unset or blank);
     * otherwise only an `X-Api-Key` header ordinal-equal to the key passes.
     */
    predicate IntakeAuthorized(apiKeyHeader: Option<string>)
      ensures intakeKey.None? || IsBlank(intakeKey.value) ==> IntakeAuthorized(apiKeyHeader)
      ensures intakeKey.Some? && !IsBlank(intakeKey.value) ==>
                (IntakeAuthorized(apiKeyHeader) <==> apiKeyHeader == intakeKey)
    {
      if intakeKey.None? || IsBlank(intakeKey.value) then true
      else if apiKeyHeader.None? then false
      else apiKeyHeader.value == intakeKey.value
    }

    /**
     * `POST /measurements`. `measurementId` stands for `Guid.NewGuid()`,
     * `now` for the clock and `localOffset` for the machine's UTC offset.
     */
    method Ingest(apiKeyHeader: Option<string>, dto: Option<MeasurementInDto>,
                  measurementId: Guid, now: Instant, localOffset: int)
      returns (r: ActionResult<Stored>)
      requires db.Valid()
      modifies db
      ensures db.Valid()
      ensures db.users == old(db.users) && db.deviceUsers == old(db.deviceUsers)
      // The gate comes before any other check.
      ensures !IntakeAuthorized(apiKeyHeader) ==> r == Unauthorized(Error("Invalid intake key."))
      ensures IntakeAuthorized(apiKeyHeader) && dto.None? ==> r == BadRequest(Error("Body is required."))
      ensures IntakeAuthorized(apiKeyHeader) && dto.Some? && IsBlank(dto.value.deviceId) ==>
                r == BadRequest(Error("DeviceId is required."))
      ensures IntakeAuthorized(apiKeyHeader) && dto.Some? && !IsBlank(dto.value.deviceId) &&
              (dto.value.co2 <= 0.0 || dto.value.co2 > MaxCo2) ==>
                r == BadRequest(Error("Co2 value is invalid."))
      // Refused requests write nothing.
      ensures !(IntakeAuthorized(apiKeyHeader) && IngestAccepted(dto)) ==>
                db.devices == old(db.devices) && db.measurements == old(db.measurements)
      // An unknown device id is registered under that exact id, with no owner.
      ensures IntakeAuthorized(apiKeyHeader) && IngestAccepted(dto) ==>
                db.devices == old(db.devices) +
                  if dto.value.deviceId in DeviceIds(old(db.devices)) then []
                  else [Device(dto.value.deviceId, Some(AutoRegisteredName), None, now, EmptyGuid)]
      // Exactly one measurement is appended.
      ensures IntakeAuthorized(apiKeyHeader) && IngestAccepted(dto) ==>
                var m := Measurement(measurementId, dto.value.deviceId, dto.value.co2,
                                     dto.value.temperature, dto.value.humidity,
                                     IntakeTimestamp(dto.value.timestamp, now, localOffset), EmptyGuid);
                && db.measurements == old(db.measurements) + [m]
                && r == Ok(Stored("Measurement stored.", m))
    {
      if !IntakeAuthorized(apiKeyHeader) {
        return Unauthorized(Error("Invalid intake key."));
      }
      if dto.None? {
        return BadRequest(Error("Body is required."));
      }
      var body := dto.value;
      if IsBlank(body.deviceId) {
        return BadRequest(Error("DeviceId is required."));
      }
      if body.co2 <= 0.0 || body.co2 > MaxCo2 {
        return BadRequest(Error("Co2 value is invalid."));
      }

      var device := FirstOrDefault(db.devices, (d: Device) => d.id == body.deviceId);
      if device.None? {
        db.AddDevice(Device(body.deviceId, Some(AutoRegisteredName), None, now, EmptyGuid));
      } else {
        assert db.devices[FirstIndex(db.devices, (d: Device) => d.id == body.deviceId)].id == body.deviceId;
      }

      var ts := match body.timestamp
                case Some(t) => ToUniversalTime(t, localOffset)
                case None => now;

      var entity := Measurement(measurementId, body.deviceId, body.co2, body.temperature, body.humidity, ts, EmptyGuid);
      db.AddMeasurement(entity);
      return Ok(Stored("Measurement stored.", entity));
    }

    /**
     * `GET /measurements/{deviceId}`: one page of the device's history,
     * newest first, with `limit` clamped to [1, 1000] and `offset` to at least 0.
     */
    function GetByDevice(deviceId: string, limit: int, offset: int): (r: ActionResult<MeasurementPage>)
      reads db
      ensures IsBlank(deviceId) <==> r == BadRequest(Error("DeviceId is required."))
      ensures !IsBlank(deviceId) ==> r.Ok?
      ensures r.Ok? ==>
                var page := r.value;
                && 1 <= page.limit <= 1000
                && page.limit == Clamp(limit, 1, 1000)
                && page.offset == (if offset < 0 then 0 else offset)
                && page.total == |Where(db.measurements, OfDevice(deviceId))|
                && |page.items| <= page.limit
                && DescendingBy(page.items, Timestamp)
                && page.items == SkipTake(History(db.measurements, deviceId), page.offset, page.limit)
                && (forall k :: 0 <= k < |page.items| ==>
                      page.items[k].deviceId == deviceId && page.items[k] in db.measurements)
                && (page.offset < page.total ==> |page.items| == Min(page.limit, page.total - page.offset))
    {
      if IsBlank(deviceId) then BadRequest(Error("DeviceId is required."))
      else
        var limit := Clamp(limit, 1, 1000);
        var offset := if offset < 0 then 0 else offset;
        var query := History(db.measurements, deviceId);
        var items := SkipTake(query, offset, limit);
        HistoryPage(db.measurements, deviceId, offset, limit);
        Ok(MeasurementPage(|query|, limit, offset, items))
    }

    /**
     * `GET /measurements/recent`: at most `clamp(limit, 1, 1000)` measurements
     * of any device, newest first; none left out is newer than one returned.
     */
    function GetRecent(limit: int): (r: ActionResult<RecentMeasurements>)
      reads db
      ensures r.Ok?
      ensures var recent := r.value;
              && recent.count == |recent.items|
              && recent.count == Min(Clamp(limit, 1, 1000), |db.measurements|)
              && DescendingBy(recent.items, Timestamp)
              && (forall k :: 0 <= k < |recent.items| ==> recent.items[k] in db.measurements)
              && multiset(recent.items) <= multiset(db.measurements)
              && (forall m, k :: m in db.measurements && m !in recent.items && 0 <= k < |recent.items| ==>
                    m.timestamp <= recent.items[k].timestamp)
    {
      var limit := Clamp(limit, 1, 1000);
      var sorted := SortByKeyDesc(db.measurements, Timestamp);
      var items := SkipTake(sorted, 0, limit);
      NewestAreTaken(sorted, db.measurements, limit);
      Ok(RecentMeasurements(|items|, items))
    }

    /**
     * `GET /measurements/{deviceId}/latest`: not found exactly when the device
     * has no measurement; otherwise one of its measurements with the greatest timestamp.
     */
    function GetLatest(deviceId: string): (r: ActionResult<Measurement>)
      reads db
      ensures IsBlank(deviceId) <==> r == BadRequest(Error("DeviceId is required."))
      ensures !IsBlank(deviceId) ==>
                (r == NotFound(Error("No measurements yet.")) <==>
                 forall m :: m in db.measurements ==> m.deviceId != deviceId)
      ensures !IsBlank(deviceId) ==> r.NotFound? || r.Ok?
      ensures !IsBlank(deviceId) && (exists m :: m in db.measurements && m.deviceId == deviceId) ==> r.Ok?
      ensures r.Ok? ==>
                && r.value in db.measurements && r.value.deviceId == deviceId
                && forall m :: m in db.measurements && m.deviceId == deviceId ==> m.timestamp <= r.value.timestamp
    {
      if IsBlank(deviceId) then BadRequest(Error("DeviceId is required."))
      else
        var query := History(db.measurements, deviceId);
        if query == [] then
          assert forall m :: m in db.measurements ==> m.deviceId != deviceId by {
            WhereMembers(db.measurements, OfDevice(deviceId));
            assert Where(db.measurements, OfDevice(deviceId)) == [];
            forall m | m in db.measurements ensures m.deviceId != deviceId {
              var i :| 0 <= i < |db.measurements| && db.measurements[i] == m;
            }
          }
          NotFound(Error("No measurements yet."))
        else
          LatestIsFirst(db.measurements, deviceId);
          Ok(query[0])
    }
  }

  function Min(a: int, b: int): int {
    if a <= b then a else b
  }

  /** A window of a device's history is newest first and holds only that device's measurements. */
  lemma HistoryPage(measurements: seq<Measurement>, deviceId: string, offset: nat, limit: nat)
    ensures var items := SkipTake(History(measurements, deviceId), offset, limit);
            && DescendingBy(items, Timestamp)
            && forall k :: 0 <= k < |items| ==> items[k].deviceId == deviceId && items[k] in measurements
  {
    var h := History(measurements, deviceId);
    var w := Where(measurements, OfDevice(deviceId));
    WhereMembers(measurements, OfDevice(deviceId));
    var items := SkipTake(h, offset, limit);
    forall k | 0 <= k < |items| ensures items[k].deviceId == deviceId && items[k] in measurements {
      assert items[k] == h[offset + k];
      assert h[offset + k] in multiset(w);
      assert h[offset + k] in w;
    }
    forall i, j | 0 <= i < j < |items| ensures Timestamp(items[i]) >= Timestamp(items[j]) {
      assert items[i] == h[offset + i] && items[j] == h[offset + j];
    }
  }

  /** The first entry of a device's history is in the table and is its newest measurement. */
  lemma LatestIsFirst(measurements: seq<Measurement>, deviceId: string)
    requires History(measurements, deviceId) != []
    ensures var h := History(measurements, deviceId);
            && h[0] in measurements && h[0].deviceId == deviceId
            && forall m :: m in measurements && m.deviceId == deviceId ==> m.timestamp <= h[0].timestamp
  {
    var h := History(measurements, deviceId);
    var w := Where(measurements, OfDevice(deviceId));
    WhereMembers(measurements, OfDevice(deviceId));
    assert h[0] in multiset(w);
    assert h[0] in w;
    forall m | m in measurements && m.deviceId == deviceId ensures m.timestamp <= h[0].timestamp {
      var i :| 0 <= i < |measurements| && measurements[i] == m;
      assert m in w;
      assert m in multiset(h);
      var j :| 0 <= j < |h| && h[j] == m;
      if j > 0 {
        assert Timestamp(h[0]) >= Timestamp(h[j]);
      }
    }
  }

  /** Taking a prefix of the newest-first table leaves out nothing newer than what it took. */
  lemma NewestAreTaken(sorted: seq<Measurement>, measurements: seq<Measurement>, limit: nat)
    requires DescendingBy(sorted, Timestamp) && multiset(sorted) == multiset(measurements)
    ensures var items := SkipTake(sorted, 0, limit);
            && (forall k :: 0 <= k < |items| ==> items[k] in measurements)
            && multiset(items) <= multiset(measurements)
            && forall m, k :: m in measurements && m !in items && 0 <= k < |items| ==>
                 m.timestamp <= items[k].timestamp
  {
    var items := SkipTake(sorted, 0, limit);
    SkipTakeSubMultiset(sorted, 0, limit);
    forall k | 0 <= k < |items| ensures items[k] in measurements {
      assert items[k] == sorted[k];
      assert sorted[k] in multiset(sorted);
    }
    forall m, k | m in measurements && m !in items && 0 <= k < |items|
      ensures m.timestamp <= items[k].timestamp
    {
      assert m in multiset(measurements);
      assert m in multiset(sorted);
      var j :| 0 <= j < |sorted| && sorted[j] == m;
      assert items[k] == sorted[k];
      assert Timestamp(sorted[k]) >= Timestamp(sorted[j]);
    }
  }

  /** Consecutive pages of `GetByDevice` tile the history: nothing is skipped or repeated. */
  lemma PagesTile(c: MeasurementsController, deviceId: string, offset: nat, first: int, second: int)
    requires !IsBlank(deviceId) && 1 <= first && 1 <= second && first + second <= 1000
    ensures c.GetByDevice(deviceId, first, offset).value.items +
            c.GetByDevice(deviceId, second, offset + first).value.items
            == c.GetByDevice(deviceId, first + second, offset).value.items
  {
    AdjacentWindows(History(c.db.measurements, deviceId), offset, first, second);
  }

  /** `GetLatest` returns the single item of the first one-item page of `GetByDevice`. */
  lemma LatestIsFirstPage(c: MeasurementsController, deviceId: string)
    requires c.GetLatest(deviceId).Ok?
    ensures c.GetByDevice(deviceId, 1, 0).value.items == [c.GetLatest(deviceId).value]
  {
  }

  /**
   * `h` is an order the database may return for the device's history:
   * its measurements, newest first, equal timestamps in any order.
   */
  ghost predicate HistoryOrder(measurements: seq<Measurement>, deviceId: string, h: seq<Measurement>) {
    DescendingBy(h, Timestamp) && multiset(h) == multiset(Where(measurements, OfDevice(deviceId)))
  }

  /** No two different measurements of the device carry the same timestamp. */
  ghost predicate TimestampsIdentify(measurements: seq<Measurement>, deviceId: string) {
    forall m1, m2 ::
      (m1 in measurements && m2 in measurements && m1.deviceId == deviceId && m2.deviceId == deviceId &&
       m1.timestamp == m2.timestamp) ==> m1 == m2
  }

  /**
   * With distinct timestamps the history has exactly one newest-first order,
   * so any tie-break the database picks returns what `History` returns.
   */
  lemma HistoryIsDetermined(measurements: seq<Measurement>, deviceId: string, h: seq<Measurement>)
    requires TimestampsIdentify(measurements, deviceId)
    requires HistoryOrder(measurements, deviceId, h)
    ensures h == History(measurements, deviceId)
  {
    var w := Where(measurements, OfDevice(deviceId));
    WhereMembers(measurements, OfDevice(deviceId));
    forall x, y | x in multiset(w) && y in multiset(w) && Timestamp(x) == Timestamp(y) ensures x == y {
      assert x in w && y in w;
    }
    assert KeyIdentifies(multiset(w), Timestamp);
    DescendingDetermined(h, History(measurements, deviceId), Timestamp);
  }

  /**
   * Pages cut from three separately ordered queries still tile the history
   * when the device's timestamps are distinct.
   */
  lemma PagesTileAnyOrder(measurements: seq<Measurement>, deviceId: string,
                          h1: seq<Measurement>, h2: seq<Measurement>, h3: seq<Measurement>,
                          offset: nat, first: nat, second: nat)
    requires TimestampsIdentify(measurements, deviceId)
    requires HistoryOrder(measurements, deviceId, h1) && HistoryOrder(measurements, deviceId, h2)
    requires HistoryOrder(measurements, deviceId, h3)
    ensures SkipTake(h1, offset, first) + SkipTake(h2, offset + first, second) == SkipTake(h3, offset, first + second)
  {
    HistoryIsDetermined(measurements, deviceId, h1);
    HistoryIsDetermined(measurements, deviceId, h2);
    HistoryIsDetermined(measurements, deviceId, h3);
    AdjacentWindows(History(measurements, deviceId), offset, first, second);
  }

  /**
   * Whatever order the database breaks ties in, the first row of the history
   * is as new as `GetLatest`'s answer, and is that answer when timestamps are distinct.
   */
  lemma LatestAnyOrder(c: MeasurementsController, deviceId: string, h: seq<Measurement>)
    requires c.GetLatest(deviceId).Ok?
    requires HistoryOrder(c.db.measurements, deviceId, h)
    ensures h != [] && h[0].timestamp == c.GetLatest(deviceId).value.timestamp
    ensures TimestampsIdentify(c.db.measurements, deviceId) ==> h[0] == c.GetLatest(deviceId).value
  {
    var latest := c.GetLatest(deviceId).value;
    var w := Where(c.db.measurements, OfDevice(deviceId));
    WhereMembers(c.db.measurements, OfDevice(deviceId));
    var i :| 0 <= i < |c.db.measurements| && c.db.measurements[i] == latest;
    assert latest in w;
    assert latest in multiset(h);
    var j :| 0 <= j < |h| && h[j] == latest;
    assert h[0] in multiset(w);
    assert h[0] in w;
    assert h[0].deviceId == deviceId;
    if j > 0 {
      assert Timestamp(h[0]) >= Timestamp(h[j]);
    }
  }
}
