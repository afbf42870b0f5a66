# CO₂ meter backend and dashboard helpers, modelled in Dafny

The carbon-dioxide meter system has three parts. Sensors post readings. An
ASP.NET backend stores users, devices, device–user links and measurements.
A React dashboard shows the latest readings. This project models the
backend's request handlers and the dashboard's pure helpers, and proves
what they promise.

- `DeviceUsers` (`device_users.dfy`) covers MAC canonicalisation and
  enrolment. Enrolment gets or creates the device. It then links the
  device to a user under the hash of a freshly issued device key.
- `Measurements` (`measurements.dfy`) covers the intake-key gate and
  measurement intake with device auto-registration. It also covers the
  newest-first paged history, the recent feed and the latest reading.
- `Devices` (`devices.dfy`) covers create-only device registration, a
  user's devices listed most recent first, and lookup by id.
- `Auth` (`auth.dfy`) covers registration and login. Registration stores a
  trimmed username and a trimmed, lower-cased email, and both must be
  unique ignoring case. Login is by email and password.
- `Validation` (`validation.dfy`) covers the register and login
  validators, including their regular expressions.
- `DeviceDetailPage` (`device_detail_page.dfy`) covers the LED count, the
  segment colours, the notice and the quality band. It also covers the
  time presets, the from/to ordering and the "show more" pagination.
- `DashboardPage` (`dashboard_page.dfy`) covers `pickCo2`, the CO₂ badge
  and the device counter.

Supporting modules:

- `Wrappers` holds `Option`.
- `Text` holds the .NET character classes and `Trim`, `ToUpperInvariant`
  and `ToLower`.
- `Linq` holds `Where`, `OrderByDescending`, `Skip`/`Take`,
  `FirstOrDefault` and `Math.Clamp`.
- `Credentials` holds bcrypt as a symbolic digest.
- `Models` holds the entities, the action results and the store.
- `JsValues` holds JavaScript values, `?.`, `??` and `safeNum`.
- `Thresholds` counts the thresholds a reading reaches or exceeds. Every
  CO₂ band on the pages is such a count, so monotonicity is proved once,
  there.

The store is the class `Models.AppDbContext`. It has one `seq` field per
table. `Valid()` states the invariants the handlers keep:

- the unique indexes on username, email, device id and (device, user) link
  pairs;
- every link and every measurement refers to a stored device.

Every state-changing handler is a method that `modifies` the store. It
states the whole new state for each outcome and preserves `Valid()`.
Read-only handlers are functions that `reads` the store. The exception is
`Auth.AuthController.Login`: it is a method because it calls the
imperative login validator, and it modifies nothing. Randomness, the
clock and generated ids are parameters: `rawKey`, `now`, `newUserId`,
`measurementId`, `linkId`. The machine's UTC offset is also a parameter,
`localOffset`.

The model follows the code as written, including where its behaviour may
be unexpected:

- `NormalizeMac` keeps every ASCII letter, not only the hexadecimal ones
  (`backend/Controllers/DeviceUsers.cs:14-19`).
- Measurement intake does not canonicalise the device id. A reading posted
  under `aa-bb-cc-dd-ee-ff` auto-registers a device distinct from the
  enrolled `AA:BB:CC:DD:EE:FF` (`backend/Controllers/Measurements.cs:39-49`).
- That auto-registered device has no owner (`Guid.Empty`) and no
  location.
- Login compares the lower-cased stored email with the input, trimmed and
  lower-cased. It answers "incorrect email." and "Incorrect password."
  exactly as written (`backend/Controllers/Auth.cs:73-80`).

## Model

| member | source | states |
|---|---|---|
| DeviceUsers.NormalizeMac | backend/Controllers/DeviceUsers.cs:14-19 | with exactly twelve letters/digits the result is 17 characters: those twelve, upper-cased, in pairs separated by colons; otherwise it is the trimmed input |
| DeviceUsers.NormalizeMacIdempotent | backend/Controllers/DeviceUsers.cs:14-19 | normalising a normalised MAC changes nothing |
| DeviceUsers.NormalizeMacIgnoresSeparatorsAndCase | backend/Controllers/DeviceUsers.cs:16-18 | inputs with the same twelve letters/digits (ignoring case and separators) normalise to the same MAC, and the MAC keeps those twelve characters |
| DeviceUsers.DeviceUsersController.Enroll | backend/Controllers/DeviceUsers.cs:21-50 | the three 400s in order; get-or-create of the device under the normalised MAC (owner and name of an existing device untouched); 409 on a second link for the pair; otherwise one link holding the hash of the issued key, which verifies it; store invariants kept |
| Credentials.HashPassword | backend/Controllers/DeviceUsers.cs:42-43 | the digest verifies the hashed secret and no other string |
| Measurements.MeasurementsController.IntakeAuthorized | backend/Controllers/Measurements.cs:20-25 | open when no key (or a blank one) is configured; otherwise true exactly when the header equals the key ordinally |
| Measurements.ToUniversalTime | backend/Controllers/Measurements.cs:51 | a UTC timestamp is kept, a local or unspecified one is shifted by the machine offset |
| Measurements.MeasurementsController.Ingest | backend/Controllers/Measurements.cs:27-71 | 401 before any other check; the 400s for body, device id and CO₂ outside (0, 100000]; refused requests write nothing; an unknown id becomes an ownerless auto-registered device; exactly one measurement appended, timestamp supplied-in-UTC or now |
| Measurements.History | backend/Controllers/Measurements.cs:82-84 | the device's measurements, each as often as stored, newest first |
| Measurements.MeasurementsController.GetByDevice | backend/Controllers/Measurements.cs:73-96 | 400 iff the id is blank; limit clamped to [1, 1000], offset to at least 0; total counts the device's rows; items are the window at offset of the newest-first history, only that device's rows, and as many as the window holds |
| Measurements.HistoryPage | backend/Controllers/Measurements.cs:82-87 | any window of the history is newest first and holds only that device's stored measurements |
| Measurements.PagesTile | backend/Controllers/Measurements.cs:79-87 | two consecutive pages concatenate to the page spanning both: paging skips and repeats nothing |
| Measurements.HistoryIsDetermined | backend/Controllers/Measurements.cs:82-84 | when no two of the device's measurements share a timestamp, every newest-first order of them is `History` |
| Measurements.PagesTileAnyOrder | backend/Controllers/Measurements.cs:79-87 | with distinct timestamps, pages cut from three separately ordered queries still tile: nothing skipped or repeated |
| Measurements.MeasurementsController.GetRecent | backend/Controllers/Measurements.cs:98-113 | count = min(clamp(limit), rows); items newest first, each stored and returned at most as often as stored; no row left out is newer than one returned |
| Measurements.NewestAreTaken | backend/Controllers/Measurements.cs:103-106 | a prefix of a newest-first permutation holds each row at most as often as the table and leaves out nothing newer than what it took |
| Measurements.MeasurementsController.GetLatest | backend/Controllers/Measurements.cs:115-129 | 400 iff blank id; 404 iff the device has no measurement; otherwise 200 with a measurement of that device with the greatest timestamp |
| Measurements.LatestIsFirst | backend/Controllers/Measurements.cs:121-124 | the head of a non-empty history is stored, belongs to the device and is its newest |
| Measurements.LatestIsFirstPage | backend/Controllers/Measurements.cs:115-129 | the latest reading is the single item of the first one-row page of the history |
| Measurements.LatestAnyOrder | backend/Controllers/Measurements.cs:119-124 | in any newest-first order of the device's history the first row is as new as the latest reading, and is that reading when timestamps are distinct |
| Devices.DevicesController.Register | backend/Controllers/Devices.cs:18-49 | the three 400s in order; 409 when the id exists; otherwise exactly one device added under the id as given, name defaulting to "Unnamed Device", with the confirmation message |
| Devices.DevicesController.GetByUser | backend/Controllers/Devices.cs:51-60 | a permutation of the user's devices, most recently registered first: every listed device is the user's and every device of the user is listed |
| Devices.OwnedListing | backend/Controllers/Devices.cs:54-57 | a permutation of the owner filter contains exactly the owner's devices |
| Devices.DevicesController.GetOne | backend/Controllers/Devices.cs:63-71 | 404 iff no device has the id; otherwise 200 with a stored device with that id, the only one when ids are unique |
| Validation.EmailMessage | backend/Services/Validation/UserRegisterValidator.cs:13-21 | no message exactly when the email is present, 5 to 50 characters long and matches the pattern |
| Validation.PasswordMessage | backend/Services/Validation/UserRegisterValidator.cs:24-32 | no message exactly when the password is present, 8 to 30 characters long and has a lower-case letter, an upper-case letter and a digit |
| Validation.UsernameMessage | backend/Services/Validation/UserRegisterValidator.cs:35-43 | no message exactly when the username is present, 3 to 20 characters long and only letters, digits and underscores |
| Validation.FirstFailingCheckDecides | backend/Services/Validation/UserRegisterValidator.cs:13-43 | per field, the first failing check picks the message: required before length before pattern |
| Validation.ValidateRegister | backend/Services/Validation/UserRegisterValidator.cs:8-46 | the dictionary built field by field is exactly `RegisterErrors` of the input |
| Validation.RegisterErrors | backend/Services/Validation/UserRegisterValidator.cs:8-46 | keys only among email, password, username; a key is present exactly when its field fails, with that field's own message |
| Validation.EmailPattern | backend/Services/Validation/UserRegisterValidator.cs:19 | a matching email is at least 5 characters long and not blank |
| Validation.PasswordPattern | backend/Services/Validation/UserRegisterValidator.cs:30 | a matching password is at least 8 characters long and not blank |
| Validation.UsernamePattern | backend/Services/Validation/UserRegisterValidator.cs:41 | a matching username is not blank |
| Validation.RegisterErrorsEmpty | backend/Services/Validation/UserRegisterValidator.cs:8-46 | the dictionary is empty exactly when all three fields pass |
| Validation.EmailPatternExamples | backend/Services/Validation/UserRegisterValidator.cs:19 | the email pattern accepts "a@b.c" and, through `$`, "a@b.c" followed by a line feed; it rejects "a@b" and an address with a space |
| Validation.LoginEmailMessage | backend/Services/Validation/UserLoginValidator.cs:13-16 | no message exactly when the email is present and matches the pattern; no length rule |
| Validation.LoginErrors | backend/Services/Validation/UserLoginValidator.cs:8-23 | keys only among email and password; the email key exactly when the email fails, with its message; the password key with "Password is required." exactly when the password is blank |
| Validation.ValidateLogin | backend/Services/Validation/UserLoginValidator.cs:8-23 | the dictionary built field by field is exactly `LoginErrors` of the input |
| Validation.LoginErrorsEmpty | backend/Services/Validation/UserLoginValidator.cs:8-23 | the dictionary is empty exactly when the email is present and matches the pattern and the password is present |
| Validation.RegisteredCredentialsPassLogin | backend/Services/Validation/UserLoginValidator.cs:13-20 | credentials the register validator accepts pass the login validator |
| Models.AppDbContext.AddUser | backend/Data/AppDbContext.cs:22-23 | inserting a user whose username and email are new appends that row, changes no other table and keeps the store invariants |
| Models.AppDbContext.AddDevice | backend/Data/AppDbContext.cs:51-54 | inserting a device under a new id appends that row, changes no other table and keeps the store invariants |
| Models.AppDbContext.AddLink | backend/Migrations/20251130131532_SyncModels.cs:53-57 | inserting a link to a stored device for a new (device, user) pair appends that row, changes no other table and keeps the store invariants |
| Models.AppDbContext.AddMeasurement | backend/Data/AppDbContext.cs:66-70 | inserting a measurement of a stored device appends that row, changes no other table and keeps the store invariants |
| Auth.AuthController.Register | backend/Controllers/Auth.cs:22-63 | 400 with exactly the validator's dictionary, never empty, iff validation fails; username clash (ignoring case) before email clash, each a 409 with its message, and a 409 only on a clash; otherwise one user appended with the trimmed username, trimmed lower-cased email and a hash verifying the password; case-insensitive uniqueness kept |
| Auth.NewUserKeepsKeysUnique | backend/Controllers/Auth.cs:33-37 | a user clashing with no stored username or email, ignoring case, keeps both uniqueness invariants |
| Auth.AuthController.Login | backend/Controllers/Auth.cs:65-85 | 400 iff the login validator fails; 401 "incorrect email." iff no stored email matches; otherwise the first matching user in table order (the only one while emails are unique ignoring case) if the password verifies, else 401 "Incorrect password." |
| Auth.LoginFindsNewUser | backend/Controllers/Auth.cs:73-74 | after appending a user whose email no stored user had, that email is taken and its first match is the new row |
| Auth.RegisterThenLogin | backend/Controllers/Auth.cs:22-80 | a valid registration that clashes with nothing succeeds; a successful registration followed by login with the same email and password returns exactly the new user |
| Text.TrimPadding | backend/Controllers/Auth.cs:30 | the input is white space, then its trimmed form, then white space: `Trim` drops nothing else |
| Text.TrimBlank | backend/Controllers/DeviceUsers.cs:26 | a string is null-or-white-space exactly when it trims to empty |
| Text.TrimIdempotent | backend/Controllers/Auth.cs:30 | trimming twice is trimming once |
| Linq.SortByKeyDesc | backend/Controllers/Devices.cs:56 | `OrderByDescending`: a permutation in non-increasing key order |
| Linq.SkipTake | backend/Controllers/Measurements.cs:87 | `Skip(offset).Take(limit)`: the window of the input at offset, of the length the two bounds leave |
| Linq.SkipTakeSubMultiset | backend/Controllers/Measurements.cs:105 | a window holds each element at most as often as the whole |
| Linq.DescendingDetermined | backend/Controllers/Measurements.cs:84 | when equal keys mean equal elements, two non-increasing orders of the same elements are the same sequence |
| Linq.AdjacentWindows | backend/Controllers/Measurements.cs:87 | two adjacent windows concatenate to the window spanning both |
| Linq.FirstOrDefault | backend/Controllers/Devices.cs:66 | nothing iff no element matches, else the first match |
| Linq.WhereMembers | backend/Controllers/Measurements.cs:83 | `Where` keeps each element at most as often as the input has it, keeps only input elements, and keeps every element that passes |
| Linq.Clamp | backend/Controllers/Measurements.cs:79 | `Math.Clamp`: within the bounds, the value itself when already inside |
| JsValues.SafeNum | frontend/src/pages/DashboardPage.tsx:8-10 | a number iff the input is a finite number, and then that number |
| JsValues.SafeNumIdempotent | frontend/src/pages/DashboardPage.tsx:8-10 | feeding a result of `safeNum` back returns it unchanged |
| JsValues.Coalesce | frontend/src/pages/DashboardPage.tsx:14 | `a ?? b` is `b` exactly when `a` is null or undefined |
| JsValues.CoalesceChain | frontend/src/pages/DashboardPage.tsx:14 | `a ?? b ?? c` is the first present operand, or the last |
| DashboardPage.PickCo2 | frontend/src/pages/DashboardPage.tsx:13-15 | `safeNum` of the first present of `co2`, `CO2`, `cO2` |
| DashboardPage.PickCo2FirstSpellingWins | frontend/src/pages/DashboardPage.tsx:13-15 | a finite `co2` wins; an absent `co2` defers to `CO2`; a present non-numeric `co2` yields null; a missing measurement yields null |
| DashboardPage.Co2Badge | frontend/src/pages/DashboardPage.tsx:29-34 | "No data" iff there is no reading |
| DashboardPage.BadgeBands | frontend/src/pages/DashboardPage.tsx:29-34 | Good/OK/Bad ranks count the bounds 800 and 1200 the reading exceeds, so the badge never improves as CO₂ rises |
| DashboardPage.Decimal | frontend/src/pages/DashboardPage.tsx:109 | a number renders as decimal digits with no leading zero |
| DashboardPage.DecimalRoundTrip | frontend/src/pages/DashboardPage.tsx:109 | reading the rendered digits back gives the number |
| DashboardPage.DeviceCountLabel | frontend/src/pages/DashboardPage.tsx:107-110 | "1 device" exactly for one device, otherwise the count followed by " devices" |
| DashboardPage.DeviceCountLabelInjective | frontend/src/pages/DashboardPage.tsx:107-110 | different counts get different labels |
| DeviceDetailPage.PresetMs | frontend/src/pages/DeviceDetailPage.tsx:61-67 | null exactly for "custom" and "all"; otherwise a positive whole number of hours in milliseconds |
| DeviceDetailPage.PresetWindows | frontend/src/pages/DeviceDetailPage.tsx:61-67 | 3 600 000, 86 400 000, 604 800 000 and 2 592 000 000 ms, strictly increasing |
| DeviceDetailPage.OrderRange | frontend/src/pages/DeviceDetailPage.tsx:374-375 | from ≤ to, the pair is a permutation of the two picks, and picks in order are kept |
| DeviceDetailPage.LedCountForCo2 | frontend/src/pages/DeviceDetailPage.tsx:70-77 | the number of the eight thresholds the reading has reached, within [0, 8] |
| DeviceDetailPage.LedCountShape | frontend/src/pages/DeviceDetailPage.tsx:72-77 | monotone in CO₂; 0 below 400 ppm; 8 from 2000 ppm |
| DeviceDetailPage.LedLitIffThresholdReached | frontend/src/pages/DeviceDetailPage.tsx:609 | segment i is lit (i < count) exactly when CO₂ has reached threshold i |
| Thresholds.ReachedIsPrefix | frontend/src/pages/DeviceDetailPage.tsx:73-75 | on ascending thresholds, threshold i is reached iff i is below the count |
| Thresholds.CountExceededMonotone | frontend/src/pages/DeviceDetailPage.tsx:147-170 | a higher reading exceeds at least as many thresholds |
| DeviceDetailPage.SegmentLayout | frontend/src/pages/DeviceDetailPage.tsx:79-84 | the eight segments are three green, three orange, two red |
| DeviceDetailPage.SegmentColor | frontend/src/pages/DeviceDetailPage.tsx:80-84 | each segment has the colour of the notice for a reading at its threshold |
| DeviceDetailPage.Co2Notice | frontend/src/pages/DeviceDetailPage.tsx:96-123 | no notice exactly when there is no reading |
| DeviceDetailPage.NoticeBands | frontend/src/pages/DeviceDetailPage.tsx:96-123 | the notice level counts the bounds 700 and 1200 exceeded, so it never falls as CO₂ rises |
| DeviceDetailPage.Co2Quality | frontend/src/pages/DeviceDetailPage.tsx:147-170 | the band's rank is the number of the bounds 400, 600, 700, 1000, 1200 and 1400 the reading exceeds |
| DeviceDetailPage.QualityBands | frontend/src/pages/DeviceDetailPage.tsx:147-170 | the quality band counts the bounds 400, 600, 700, 1000, 1200 and 1400 exceeded, so it never falls as CO₂ rises |
| DeviceDetailPage.NoticeAgreesWithQuality | frontend/src/pages/DeviceDetailPage.tsx:147-170 | green notice iff Ideal to Normal, orange iff Not good or Bad, red iff Very bad or Terrible |
| DeviceDetailPage.VisibleRows | frontend/src/pages/DeviceDetailPage.tsx:438-441 | the table shows the first min(count, length) rows |
| DeviceDetailPage.ShowMore | frontend/src/pages/DeviceDetailPage.tsx:941 | exactly min(count + 10, length) when count is at most the length: never beyond the length, exactly ten more below it, and the length only when ten more would reach it |
| DeviceDetailPage.CanShowMore | frontend/src/pages/DeviceDetailPage.tsx:443 | the button is enabled exactly when a press would show more rows |
| DeviceDetailPage.ShowMoreReachesAll | frontend/src/pages/DeviceDetailPage.tsx:443 | ceil((length − count)/10) presses show every row and disable the button |

## Left out

- Measurements.PagesTile, Measurements.LatestIsFirstPage: in the model, measurements with equal timestamps keep their table order, so every query sorts them the same way. PostgreSQL leaves such ties unordered, and two queries may break them differently. For the real queries the model promises what `HistoryIsDetermined`, `PagesTileAnyOrder` and `LatestAnyOrder` state: any tie order when a device's timestamps are distinct, and otherwise only a first row as new as the latest.
- Auth.AuthController.Login: takes the first match in table order. PostgreSQL does not fix which row `FirstOrDefaultAsync` returns among several; there is at most one while stored emails stay unique ignoring case.
- Query-string defaults: the omitted-parameter defaults (`limit` 50 and `offset` 0 for `GetByDevice`, `limit` 100 for `GetRecent`) are not modelled; the handlers take the values after binding.
- Persistence and failure: the store is in memory. `SaveChangesAsync` always succeeds, and the register transaction always commits.
- Failure responses: the 500 response of registration is not modelled, and neither are the missing-table and connection failures.
- Logging and messages: console logging is left out, as is the "is registred" message text of register and login.
- Bcrypt: it is a symbolic digest that verifies exactly the hashed secret. Salting, the cost factor and one-wayness are not modelled.
- Device keys: they are a parameter, not 32 random bytes in Base64.
- Clock and generated ids: they are parameters. `Enroll` uses one `now` for both `DateTime.UtcNow` reads.
- Text: the character classes (`char.IsLetterOrDigit`, `\d`, `[a-zA-Z0-9_]`, `ToUpperInvariant`, `ToLower`) are ASCII only. White space covers ASCII, U+0085 and U+00A0. String length counts characters, not UTF-16 code units.
- Request shapes: null string fields in request bodies are modelled as empty strings, which every check treats the same way. Device name and location stay optional. A missing register or login body is not modelled.
- The `X-Api-Key` header: it is one optional string; several header values joined by commas are not modelled.
- Column limits: device id `varchar(17)` and the name and length limits of the schema are not enforced by the model.
- Foreign keys: the key from devices and measurements to users is not part of `Valid()`. Ingest stores `Guid.Empty` there. The non-null `Measurements.Device_Users_Id` column and its foreign key to `DeviceUsers` (backend/Migrations/20251130131532_SyncModels.cs:14-19, 64-70) are not modelled either: `Models.Measurement` has no such field and `Ingest` never sets one. Nor is the key from `DeviceUsers.User_Id` to `Users` (backend/Migrations/20251130131532_SyncModels.cs:40-45): `Enroll` may link a user id that is not stored and answer 200. The database would reject either insert, and the model does not capture those failures, since `SaveChangesAsync` always succeeds here.
- The device-login handshake: the key-issued flag and existing-key reuse are not part of this model, because there is no handler for them.
- React: rendering, effects, polling timers, `Date` parsing and `toLocaleString` formatting are left out, as are the Tailwind class strings. Only the colour band they encode is kept.
- Notice copy: `DeviceDetailPage.Co2Notice` returns the notice level. The title and text are fixed per level, as `Level.Title` and `Level.Text`.
- DeviceDetailPage.LedCountForCo2: takes finite readings only. On the page it receives `safeNum` results, so `NaN` and infinities never reach it.
- DeviceDetailPage.Co2Quality: takes finite readings only, for the same reason.
- DeviceDetailPage.Co2Notice: takes finite readings only, for the same reason.
- DashboardPage.Co2Badge: it takes finite readings only, because it is fed by `pickCo2`.
