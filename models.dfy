/**
 * Records of the backend's tables, the response shapes the controllers
 * return, and the store (`AppDbContext`) with the unique indexes of its
 * schema as its invariant.
 */
module Models {

  import opened Wrappers
  import opened Text
  import opened Credentials

  /** A `Guid`; `Guid.Empty` is 0. */
  type Guid = nat

  const EmptyGuid: Guid := 0

  /** The name both enrolment and measurement intake give a device they create. */
  const AutoRegisteredName := "Auto-registered device"

  /** A UTC instant, in ticks. */
  type Instant = int

  datatype User = User(id: Guid, username: string, email: string, passwordHash: Digest)

  /** A row of the Devices table; `id` is the device's MAC text, its alternate key. */
  datatype Device = Device(
    id: string,
    name: Option<string>,
    location: Option<string>,
    registeredAt: Instant,
    userId: Guid)

  /** A row of the DeviceUsers table: a device enrolled for a user, with the hash of its key. */
  datatype DeviceUser = DeviceUser(
    id: Guid,
    deviceId: string,
    userId: Guid,
    apiKeyHash: Option<Digest>,
    createdAt: Instant)

  /**
   * A stored reading. `timestamp` is the `CreatedAt` column: the instant
   * intake records, and the key every query sorts on.
   */
  datatype Measurement = Measurement(
    id: Guid,
    deviceId: string,
    co2: real,
    temperature: real,
    humidity: real,
    timestamp: Instant,
    userId: Guid)

  /** The JSON bodies of error responses: `{ error = … }` or `{ errors = … }`. */
  datatype ErrorBody = Error(error: string) | Errors(errors: map<string, string>)

  /** An `IActionResult`: the status code with its body. */
  datatype ActionResult<T> =
    | Ok(value: T)
    | BadRequest(body: ErrorBody)
    | Unauthorized(body: ErrorBody)
    | NotFound(body: ErrorBody)
    | Conflict(body: ErrorBody)

  function DeviceIds(devices: seq<Device>): set<string> {
    set d | d in devices :: d.id
  }

  /** The alternate key `AK_Devices_Id` and unique index on `Devices.Id`. */
  predicate DeviceIdsUnique(devices: seq<Device>) {
    forall i, j :: 0 <= i < j < |devices| ==> devices[i].id != devices[j].id
  }

  /** Whether a link for the pair (device, user) exists. */
  predicate HasLink(links: seq<DeviceUser>, deviceId: string, userId: Guid) {
    exists l :: l in links && l.deviceId == deviceId && l.userId == userId
  }

  /** The unique index `IX_DeviceUsers_Device_Id_User_Id`. */
  predicate LinkPairsUnique(links: seq<DeviceUser>) {
    forall i, j :: 0 <= i < j < |links| ==>
      links[i].deviceId != links[j].deviceId || links[i].userId != links[j].userId
  }

  /** The unique indexes on `Users.Username` and `Users.Email`. */
  predicate UserKeysUnique(users: seq<User>) {
    forall i, j :: 0 <= i < j < |users| ==>
      users[i].username != users[j].username && users[i].email != users[j].email
  }

  /** The stronger, case-insensitive uniqueness that registration keeps. */
  predicate UserKeysUniqueIgnoringCase(users: seq<User>) {
    forall i, j :: 0 <= i < j < |users| ==>
      LowerAll(users[i].username) != LowerAll(users[j].username) &&
      LowerAll(users[i].email) != LowerAll(users[j].email)
  }

  /** The in-memory stand-in for the relational store. */
  class AppDbContext {
    var users: seq<User>
    var devices: seq<Device>
    var deviceUsers: seq<DeviceUser>
    var measurements: seq<Measurement>

    /**
     * The schema's unique indexes, and the foreign keys from links and
     * measurements to `Devices.Id`, which every handler keeps.
     */
    ghost predicate Valid()
      reads this
    {
      && UserKeysUnique(users)
      && DeviceIdsUnique(devices)
      && LinkPairsUnique(deviceUsers)
      && (forall l :: l in deviceUsers ==> l.deviceId in DeviceIds(devices))
      && (forall m :: m in measurements ==> m.deviceId in DeviceIds(devices))
    }

    constructor ()
      ensures Valid()
      ensures users == [] && devices == [] && deviceUsers == [] && measurements == []
    {
      users, devices, deviceUsers, measurements := [], [], [], [];
    }

    /** Appends a user row whose username and email are both new, as the unique indexes demand. */
    method AddUser(user: User)
      requires Valid()
      requires UserKeysUnique(users + [user])
      modifies this
      ensures Valid()
      ensures users == old(users) + [user]
      ensures devices == old(devices) && deviceUsers == old(deviceUsers)
      ensures measurements == old(measurements)
    {
      users := users + [user];
    }

    /** Appends a device row under an id no stored device has. */
    method AddDevice(device: Device)
      requires Valid()
      requires device.id !in DeviceIds(devices)
      modifies this
      ensures Valid()
      ensures devices == old(devices) + [device]
      ensures users == old(users) && deviceUsers == old(deviceUsers)
      ensures measurements == old(measurements)
    {
      devices := devices + [device];
      assert DeviceIds(devices) == DeviceIds(old(devices)) + {device.id};
    }

    /** Appends a link row for a stored device and a (device, user) pair not yet linked. */
    method AddLink(link: DeviceUser)
      requires Valid()
      requires link.deviceId in DeviceIds(devices)
      requires !HasLink(deviceUsers, link.deviceId, link.userId)
      modifies this
      ensures Valid()
      ensures deviceUsers == old(deviceUsers) + [link]
      ensures users == old(users) && devices == old(devices)
      ensures measurements == old(measurements)
    {
      forall i | 0 <= i < |deviceUsers|
        ensures deviceUsers[i].deviceId != link.deviceId || deviceUsers[i].userId != link.userId
      {
        assert deviceUsers[i] in deviceUsers;
      }
      deviceUsers := deviceUsers + [link];
    }

    /** Appends a measurement row of a stored device. */
    method AddMeasurement(m: Measurement)
      requires Valid()
      requires m.deviceId in DeviceIds(devices)
      modifies this
      ensures Valid()
      ensures measurements == old(measurements) + [m]
      ensures users == old(users) && devices == old(devices)
      ensures deviceUsers == old(deviceUsers)
    {
      measurements := measurements + [m];
    }
  }
}
