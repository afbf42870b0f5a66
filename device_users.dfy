/**
 * Device enrolment (`DeviceUsersController`): canonicalising a MAC and
 * linking a device to a user with a freshly issued, hashed device key.
 */
module DeviceUsers {

  import opened Wrappers
  import opened Text
  import opened Linq
  import opened Credentials
  import opened Models

  datatype DeviceUsersEnrollRequest = DeviceUsersEnrollRequest(deviceId: string, userId: Guid)

  datatype DeviceUsersEnrollResponse = DeviceUsersEnrollResponse(deviceUsersId: Guid, deviceKey: string)

  const UnknownLocation := "Unknown"

  // ---------------------------------------------------------------------
  // MAC canonicalisation
  // ---------------------------------------------------------------------

  /** The letters and digits of `mac`, in order, upper-cased. */
  function MacKey(mac: string): string {
    UpperAll(Where(mac, IsLetterOrDigit))
  }

  /** The consecutive two-character pieces of `hex`. */
  function Pairs(hex: string): seq<string>
    requires |hex| % 2 == 0
  {
    if hex == [] then [] else [hex[..2]] + Pairs(hex[2..])
  }

  /**
   * `r` is `hex` written as colon-separated pairs: the colons sit at
   * indices 2, 5, 8, …, and between them come the characters of `hex` in order.
   */
  ghost predicate ColonPairs(r: string, hex: string)
    requires |hex| % 2 == 0 && |hex| >= 2
  {
    var n := |hex| / 2;
    && |r| == 3 * n - 1
    && (forall i :: 0 <= i < n - 1 ==> r[3 * i + 2] == ':')
    && (forall i :: 0 <= i < n ==> r[3 * i] == hex[2 * i] && r[3 * i + 1] == hex[2 * i + 1])
  }

  /**
   * `NormalizeMac`: when exactly twelve letters or digits remain after
   * dropping everything else, they are upper-cased and regrouped as
   * `XX:XX:XX:XX:XX:XX`; otherwise the input comes back trimmed.
   * Any letter is kept, not only the hexadecimal ones.
   */
  function NormalizeMac(mac: string): (r: string)
    ensures |MacKey(mac)| == 12 ==> |r| == 17 && ColonPairs(r, MacKey(mac))
    ensures |MacKey(mac)| != 12 ==> r == Trim(mac)
  {
    var hex := MacKey(mac);
    if |hex| != 12 then Trim(mac)
    else
      JoinPairsShape(hex);
      Join(":", Pairs(hex))
  }

  /** Joining the pairs of `hex`: the first pair, a colon, then the rest joined. */
  lemma JoinPairsCons(hex: string)
    requires |hex| % 2 == 0 && |hex| >= 4
    ensures Join(":", Pairs(hex)) == hex[..2] + (":" + Join(":", Pairs(hex[2..])))
  {
    var p := Pairs(hex);
    var rest := Join(":", Pairs(hex[2..]));
    assert p == [hex[..2]] + Pairs(hex[2..]);
    assert Pairs(hex[2..]) != [];
    assert p[1..] == Pairs(hex[2..]);
    assert Join(":", p) == (hex[..2] + ":") + rest;
  }

  /** A pair, a colon and colon-separated pairs are colon-separated pairs. */
  lemma ColonPairsCons(hex: string, rest: string)
    requires |hex| % 2 == 0 && |hex| >= 4
    requires ColonPairs(rest, hex[2..])
    ensures ColonPairs(hex[..2] + (":" + rest), hex)
  {
    var r := hex[..2] + (":" + rest);
    var n := |hex| / 2;
    forall i | 1 <= i < n ensures r[3 * i] == hex[2 * i] && r[3 * i + 1] == hex[2 * i + 1] {
      assert r[3 * i] == rest[3 * (i - 1)];
      assert r[3 * i + 1] == rest[3 * (i - 1) + 1];
    }
    forall i | 1 <= i < n - 1 ensures r[3 * i + 2] == ':' {
      assert r[3 * i + 2] == rest[3 * (i - 1) + 2];
    }
  }

  /** The joined pairs of `hex` are `hex` with a colon after every second character but the last. */
  lemma {:induction false} JoinPairsShape(hex: string)
    requires |hex| % 2 == 0 && |hex| >= 2
    ensures ColonPairs(Join(":", Pairs(hex)), hex)
  {
    if |hex| == 2 {
      assert Pairs(hex) == [hex[..2]];
    } else {
      JoinPairsShape(hex[2..]);
      JoinPairsCons(hex);
      ColonPairsCons(hex, Join(":", Pairs(hex[2..])));
    }
  }

  /** The letters and digits of the joined pairs are the characters of `hex` again. */
  lemma {:induction false} WhereJoinPairs(hex: string)
    requires |hex| % 2 == 0 && |hex| >= 2
    requires forall i :: 0 <= i < |hex| ==> IsLetterOrDigit(hex[i])
    ensures Where(Join(":", Pairs(hex)), IsLetterOrDigit) == hex
  {
    var front := hex[..2];
    WhereAll(front, IsLetterOrDigit);
    if |hex| == 2 {
      assert Pairs(hex) == [front];
      assert front == hex;
    } else {
      var rest := Join(":", Pairs(hex[2..]));
      WhereJoinPairs(hex[2..]);
      JoinPairsCons(hex);
      var colonRest := ":" + rest;
      WhereAppend(":", rest, IsLetterOrDigit);
      WhereNone(":", IsLetterOrDigit);
      assert Where(colonRest, IsLetterOrDigit) == hex[2..] by {
        assert Where(colonRest, IsLetterOrDigit) == [] + hex[2..];
      }
      WhereAppend(front, colonRest, IsLetterOrDigit);
      assert hex == front + hex[2..];
    }
  }

  /** Upper-casing a string that has no lower-case letter changes nothing. */
  lemma UpperAllNoLower(s: string)
    requires forall i :: 0 <= i < |s| ==> !IsLower(s[i])
    ensures UpperAll(s) == s
  {
  }

  /** White space holds no letter or digit. */
  lemma {:induction false} WhereOfWhiteSpace(s: string)
    requires forall i :: 0 <= i < |s| ==> IsWhiteSpace(s[i])
    ensures Where(s, IsLetterOrDigit) == []
  {
    forall i | 0 <= i < |s| ensures !IsLetterOrDigit(s[i]) {
      assert IsWhiteSpace(s[i]);
    }
    WhereNone(s, IsLetterOrDigit);
  }

  /** White space around a string does not change which letters and digits it holds. */
  lemma {:induction false} WhereOfPadded(head: string, t: string, tail: string)
    requires IsBlank(head) && IsBlank(tail)
    ensures Where(head + (t + tail), IsLetterOrDigit) == Where(t, IsLetterOrDigit)
  {
    WhereOfWhiteSpace(head);
    WhereOfWhiteSpace(tail);
    WhereAppend(head, t + tail, IsLetterOrDigit);
    WhereAppend(t, tail, IsLetterOrDigit);
    assert Where(t + tail, IsLetterOrDigit) == Where(t, IsLetterOrDigit) + [];
  }

  /** Trimming removes only white space, which `NormalizeMac` ignores anyway. */
  lemma {:induction false} MacKeyOfTrim(mac: string)
    ensures MacKey(Trim(mac)) == MacKey(mac)
  {
    var head, tail := TrimPadding(mac);
    WhereOfPadded(head, Trim(mac), tail);
  }

  /** `NormalizeMac` is idempotent: a canonical MAC, or a trimmed fallback, is a fixed point. */
  lemma {:induction false} NormalizeMacIdempotent(mac: string)
    ensures NormalizeMac(NormalizeMac(mac)) == NormalizeMac(mac)
  {
    var hex := MacKey(mac);
    var r := NormalizeMac(mac);
    if |hex| == 12 {
      var w := Where(mac, IsLetterOrDigit);
      assert forall i :: 0 <= i < |w| ==> IsLetterOrDigit(w[i]);
      assert forall i :: 0 <= i < |hex| ==> IsLetterOrDigit(hex[i]) && !IsLower(hex[i]);
      WhereJoinPairs(hex);
      UpperAllNoLower(hex);
      assert MacKey(r) == hex;
    } else {
      MacKeyOfTrim(mac);
      TrimIdempotent(mac);
    }
  }

  /**
   * Two inputs with the same twelve letters or digits, ignoring case and
   * whatever separates them, normalise to the same MAC; and a canonical
   * MAC differs from no such input.
   */
  lemma {:induction false} NormalizeMacIgnoresSeparatorsAndCase(x: string, y: string)
    requires |MacKey(x)| == 12 && MacKey(x) == MacKey(y)
    ensures NormalizeMac(x) == NormalizeMac(y)
    ensures MacKey(NormalizeMac(x)) == MacKey(x)
  {
    NormalizeMacIdempotent(x);
    var hex := MacKey(x);
    var w := Where(x, IsLetterOrDigit);
    assert forall i :: 0 <= i < |w| ==> IsLetterOrDigit(w[i]);
    assert forall i :: 0 <= i < |hex| ==> IsLetterOrDigit(hex[i]) && !IsLower(hex[i]);
    WhereJoinPairs(hex);
    UpperAllNoLower(hex);
  }

  // ---------------------------------------------------------------------
  // Enrolment
  // ---------------------------------------------------------------------

  /** The request passes the three presence checks of `Enroll`. */
  predicate EnrollAccepted(req: Option<DeviceUsersEnrollRequest>) {
    req.Some? && req.value.userId != EmptyGuid && !IsBlank(req.value.deviceId)
  }

  /** The device `Enroll` creates when no device has the normalised MAC. */
  function AutoRegistered(mac: string, owner: Guid, now: Instant): Device {
    Device(mac, Some(AutoRegisteredName), Some(UnknownLocation), now, owner)
  }

  class DeviceUsersController {
    const db: AppDbContext

    constructor (db: AppDbContext)
      ensures this.db == db
    {
      this.db := db;
    }

    /**
     * `POST /device-users/enroll`. `rawKey` stands for the Base64 text of
     * 32 random bytes, `linkId` for the id the store gives the new link,
     * `now` for the clock.
     */
    method Enroll(req: Option<DeviceUsersEnrollRequest>, rawKey: string, linkId: Guid, now: Instant)
      returns (r: ActionResult<DeviceUsersEnrollResponse>)
      requires db.Valid()
      modifies db
      ensures db.Valid()
      ensures db.users == old(db.users) && db.measurements == old(db.measurements)
      // The presence checks, in the source's order; nothing is written.
      ensures req.None? ==> r == BadRequest(Error("Body is required."))
      ensures req.Some? && req.value.userId == EmptyGuid ==> r == BadRequest(Error("UserId is required."))
      ensures req.Some? && req.value.userId != EmptyGuid && IsBlank(req.value.deviceId) ==>
                r == BadRequest(Error("DeviceId is required."))
      ensures !EnrollAccepted(req) ==>
                db.devices == old(db.devices) && db.deviceUsers == old(db.deviceUsers)
      // Get-or-create the device: an existing device, owner included, is left alone.
      ensures EnrollAccepted(req) ==>
                var mac := NormalizeMac(req.value.deviceId);
                db.devices == old(db.devices) +
                  if mac in DeviceIds(old(db.devices)) then [] else [AutoRegistered(mac, req.value.userId, now)]
      // A second link for the same pair is refused; the device existed already.
      ensures EnrollAccepted(req) && HasLink(old(db.deviceUsers), NormalizeMac(req.value.deviceId), req.value.userId) ==>
                && r == Conflict(Error("Already enrolled for this user."))
                && db.devices == old(db.devices)
                && db.deviceUsers == old(db.deviceUsers)
      // Otherwise exactly one link is added, holding only the hash of the issued key.
      ensures EnrollAccepted(req) && !HasLink(old(db.deviceUsers), NormalizeMac(req.value.deviceId), req.value.userId) ==>
                var mac := NormalizeMac(req.value.deviceId);
                && r == Ok(DeviceUsersEnrollResponse(linkId, rawKey))
                && db.deviceUsers == old(db.deviceUsers) + [DeviceUser(linkId, mac, req.value.userId, Some(HashPassword(rawKey)), now)]
      ensures r.Ok? ==> var link := db.deviceUsers[|db.deviceUsers| - 1];
                link.id == r.value.deviceUsersId && link.apiKeyHash.Some? &&
                Verify(r.value.deviceKey, link.apiKeyHash.value)
    {
      if req.None? {
        return BadRequest(Error("Body is required."));
      }
      var dto := req.value;
      if dto.userId == EmptyGuid {
        return BadRequest(Error("UserId is required."));
      }
      if IsBlank(dto.deviceId) {
        return BadRequest(Error("DeviceId is required."));
      }

      var mac := NormalizeMac(dto.deviceId);

      // The two `FirstOrDefaultAsync` lookups, by what they decide.
      if mac !in DeviceIds(db.devices) {
        db.AddDevice(AutoRegistered(mac, dto.userId, now));
      }

      if HasLink(db.deviceUsers, mac, dto.userId) {
        return Conflict(Error("Already enrolled for this user."));
      }

      var hash := HashPassword(rawKey);
      var du := DeviceUser(linkId, mac, dto.userId, Some(hash), now);
      db.AddLink(du);
      return Ok(DeviceUsersEnrollResponse(du.id, rawKey));
    }
  }
}
