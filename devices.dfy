/**
 * The device registry (`DevicesController`): create-only registration and
 * read queries by owner and by id.
 */
module Devices {

  import opened Wrappers
  import opened Text
  import opened Linq
  import opened Models

  datatype DeviceRegisterDto = DeviceRegisterDto(
    id: string,
    name: Option<string>,
    location: Option<string>,
    userId: Guid)

  datatype Registered = Registered(message: string, data: Device)

  const UnnamedDevice := "Unnamed Device"

  /** The body passes the presence checks of `Register`. */
  predicate RegisterAccepted(dto: Option<DeviceRegisterDto>) {
    dto.Some? && !IsBlank(dto.value.id) && dto.value.userId != EmptyGuid
  }

  /** The key `OrderByDescending` sorts devices on. */
  function RegisteredAt(d: Device): int {
    d.registeredAt
  }

  function OwnedBy(userId: Guid): Device -> bool {
    (d: Device) => d.userId == userId
  }

  class DevicesController {
    const db: AppDbContext

    constructor (db: AppDbContext)
      ensures this.db == db
    {
      this.db := db;
    }

    /** `POST /devices/register`: `now` stands for the clock. */
    method Register(dto: Option<DeviceRegisterDto>, now: Instant) returns (r: ActionResult<Registered>)
      requires db.Valid()
      modifies db
      ensures db.Valid()
      ensures db.users == old(db.users) && db.deviceUsers == old(db.deviceUsers)
      ensures db.measurements == old(db.measurements)
      // The presence checks, in the source's order.
      ensures dto.None? ==> r == BadRequest(Error("Body is required."))
      ensures dto.Some? && IsBlank(dto.value.id) ==> r == BadRequest(Error("Device ID is required."))
      ensures dto.Some? && !IsBlank(dto.value.id) && dto.value.userId == EmptyGuid ==>
                r == BadRequest(Error("UserId is required."))
      // Create-only: an existing id is a conflict.
      ensures RegisterAccepted(dto) && dto.value.id in DeviceIds(old(db.devices)) ==>
                r == Conflict(Error("Device already registered."))
      ensures !(RegisterAccepted(dto) && dto.value.id !in DeviceIds(old(db.devices))) ==>
                db.devices == old(db.devices)
      // Otherwise exactly one device is added, under the id exactly as given.
      ensures RegisterAccepted(dto) && dto.value.id !in DeviceIds(old(db.devices)) ==>
                var d := Device(dto.value.id, Some(dto.value.name.GetOr(UnnamedDevice)),
                                dto.value.location, now, dto.value.userId);
                && db.devices == old(db.devices) + [d]
                && r == Ok(Registered("Device '" + d.id + "' registered.", d))
    {
      if dto.None? {
        return BadRequest(Error("Body is required."));
      }
      var body := dto.value;
      if IsBlank(body.id) {
        return BadRequest(Error("Device ID is required."));
      }
      if body.userId == EmptyGuid {
        return BadRequest(Error("UserId is required."));
      }

      var existing := FirstOrDefault(db.devices, (d: Device) => d.id == body.id);
      if existing.Some? {
        assert db.devices[FirstIndex(db.devices, (d: Device) => d.id == body.id)].id == body.id;
        return Conflict(Error("Device already registered."));
      }

      var entity := Device(body.id, Some(body.name.GetOr(UnnamedDevice)), body.location, now, body.userId);
      db.AddDevice(entity);
      return Ok(Registered("Device '" + entity.id + "' registered.", entity));
    }

    /**
     * `GET /devices/{userId}`: exactly the devices the user owns, each as
     * often as stored, most recently registered first.
     */
    function GetByUser(userId: Guid): (r: ActionResult<seq<Device>>)
      reads db
      ensures r.Ok?
      ensures DescendingBy(r.value, RegisteredAt)
      ensures multiset(r.value) == multiset(Where(db.devices, OwnedBy(userId)))
      ensures forall k :: 0 <= k < |r.value| ==> r.value[k].userId == userId && r.value[k] in db.devices
      ensures forall d :: d in db.devices && d.userId == userId ==> d in r.value
    {
      var devices := SortByKeyDesc(Where(db.devices, OwnedBy(userId)), RegisteredAt);
      OwnedListing(db.devices, userId, devices);
      Ok(devices)
    }

    /** `GET /devices/{deviceId}`: not found exactly when no device has that id. */
    function GetOne(deviceId: string): (r: ActionResult<Device>)
      reads db
      ensures r.NotFound? <==> deviceId !in DeviceIds(db.devices)
      ensures r.NotFound? || r.Ok?
      ensures r.NotFound? ==> r == NotFound(Error("Device not found."))
      ensures r.Ok? ==> r.value in db.devices && r.value.id == deviceId
      ensures r.Ok? && DeviceIdsUnique(db.devices) ==>
                forall d :: d in db.devices && d.id == deviceId ==> d == r.value
    {
      var device := FirstOrDefault(db.devices, (d: Device) => d.id == deviceId);
      if device.None? then
        NotFound(Error("Device not found."))
      else
        assert db.devices[FirstIndex(db.devices, (d: Device) => d.id == deviceId)].id == deviceId;
        Ok(device.value)
    }
  }

  /** A permutation of the owner's devices holds each of them and nothing else. */
  lemma OwnedListing(devices: seq<Device>, userId: Guid, listed: seq<Device>)
    requires multiset(listed) == multiset(Where(devices, OwnedBy(userId)))
    ensures forall k :: 0 <= k < |listed| ==> listed[k].userId == userId && listed[k] in devices
    ensures forall d :: d in devices && d.userId == userId ==> d in listed
  {
    var w := Where(devices, OwnedBy(userId));
    WhereMembers(devices, OwnedBy(userId));
    forall k | 0 <= k < |listed| ensures listed[k].userId == userId && listed[k] in devices {
      assert listed[k] in multiset(w);
      assert listed[k] in w;
    }
    forall d | d in devices && d.userId == userId ensures d in listed {
      var i :| 0 <= i < |devices| && devices[i] == d;
      assert d in w;
      assert d in multiset(listed);
    }
  }
}
