# ClimaticPRO core, modelled in Dafny

ClimaticPRO collects readings from Bluetooth environment sensors: JHT gateways (F525), JHT-UP probes (39F5), Wifi-PT100 probes (35F5) and JW-U water sensors. A backend stores the readings, raises alerts and signs users in with one-time codes. This project models the parts of the system that decide things. Every operation is a pure function over immutable values. The time, the random number and the database tables are parameters.

| module | file | models |
|---|---|---|
| `BleCodec`, `BleCodecProofs` | `ble_codec.dfy`, `ble_codec_proofs.dfy` | the backend telemetry codec: family identification, MAC rendering, the four byte layouts, `parseBLEData`, `encodeBLEData` and the round trips between them |
| `HexParser` | `hex_parser.dfy` | the web client's parser of hexadecimal advertising strings: normalisation, pattern search, `hex2dec`, `ieee754`, the truthiness of the output |
| `ScanClassifier` | `scan_classifier.dfy` | the mobile scanner's `parseAdvertising`: field fallbacks and the name-based family guess |
| `Alerts` | `alerts.dfy` | `checkReadingForAlerts` with its threshold checks, safety rules, de-duplication and cooldown, plus `getAlertHistory` |
| `RateLimit` | `rate_limit.dfy` | the per-identifier lockout after three failed sign-in attempts |
| `VerificationCodes` | `verification_codes.dfy` | the one-time code lifecycle: generate, store, verify, clean up |
| `AuthRoutes` | `auth_routes.dfy` | the e-mail and phone patterns, the body schemas, and the send-code and verify-code handlers with their lockout wiring |
| `SyncService` | `sync_service.dfy` | the offline batch sync with last-write-wins |
| `Pagination`, `Ordering` | `pagination.dfy`, `ordering.dfy` | the page/limit/skip arithmetic, the stable sort and the query window |
| `Sensors`, `SensorData` | `sensors.dfy`, `sensor_data.dfy` | the sensor and reading services and the sensor routes' schemas and status codes |
| `Text`, `Bytes`, `Decimal`, `Wrappers` | `text.dfy`, `bytes.dfy`, `decimal.dfy`, `wrappers.dfy` | the JavaScript primitives the code relies on: `parseInt(s, 16)`, `indexOf`, `split`, `join`, `toUpperCase`, `Buffer` reads and writes, `toFixed(2)`, `Math.round` |

Conventions:
- Bytes are integers in 0..255.
- Numbers are exact reals. `toFixed(2)` is rounding to hundredths, half away from zero.
- The IEEE 754 binary32 conversion of the PT100 probe (IEEE 754-2008, section 3.4) is a pair of functions passed in as a parameter. Its read returns `None` for a word that denotes NaN.
- A thrown error is `None` or a `Failure`. JavaScript's `undefined` and `null` are `None`.
- A database table is a sequence or a map. Each service call maps the old table to a result and a new table.
- A Prisma filter on an `undefined` field puts no condition on that column, as in the alert-configuration sync's sensor lookup (not inside `OR`; see VerificationCodes.FindUser under Left out).

The model records four behaviours of the code that are easy to get wrong:
- The backend codec matches name hints case-sensitively. It accepts a 12-byte PT100 buffer. It decodes manufacturer data even when the family is JW-U.
- The cooldown and code expiry both use strict comparisons.
- The lockout has no time window before the third failure.
- A synced sensor write is not scoped to the user: `SyncService.SensorWriteIgnoresOwner` shows a newer write overwriting another user's sensor.

## Model

| member | source | states |
|---|---|---|
| BleCodec.IdentifyByManufacturerId | backend/src/services/bleParser.service.ts:44-61 | manufacturer data of at least two bytes whose little-endian leading id is 0xF525, 0x39F5 or 0x35F5 identifies that family, whatever the service data and the name say |
| BleCodec.IdentifyByServiceData | backend/src/services/bleParser.service.ts:63-69 | without a known manufacturer id, a service-data entry under the JW-U UUID identifies JW-U, whatever the name says |
| BleCodec.IdentifyByName | backend/src/services/bleParser.service.ts:71-87 | otherwise the name decides, in the order JHT/F525, 39F5, PT100/35F5, JW-U/Water; each family is chosen exactly when its hint is present and no earlier hint is, and the result is null exactly when no hint is present |
| BleCodec.IdentifyWithoutEvidence | backend/src/services/bleParser.service.ts:38-88 | with no usable manufacturer id, no JW-U service data and no name, the family is null |
| BleCodec.IdentifyIsCaseSensitive | backend/src/services/bleParser.service.ts:72-84 | a name without upper-case letters (such as "jht-f525") identifies nothing, because the substring tests are case-sensitive |
| BleCodec.ExtractMac | backend/src/services/bleParser.service.ts:93-107 | the MAC is rendered from the six bytes at the offset, and it exists exactly when the buffer holds them; otherwise the call throws |
| BleCodec.MacStringShape | backend/src/services/bleParser.service.ts:98-106 | a rendered MAC has 17 characters: the upper-case hex digits of byte k at positions 3k and 3k+1, and ':' at every third position |
| BleCodec.MacGroup | backend/src/services/bleParser.service.ts:99-106 | the k-th group of a rendered MAC is the two-digit rendering of byte k |
| BleCodec.TemperatureRange | backend/src/services/bleParser.service.ts:121-125 | every raw 16-bit temperature decodes, after rounding, to a value in [-45, 130] |
| BleCodec.PercentRange | backend/src/services/bleParser.service.ts:122-126 | every raw 16-bit humidity or water level decodes, after rounding, to a value in [0, 100] |
| BleCodec.ParseF525Format | backend/src/services/bleParser.service.ts:109-134 | an F525 buffer decodes exactly when it has at least 13 bytes, to the MAC at offset 2, the temperature raw/65535·175 − 45 and the humidity raw/65535·100 of the big-endian words at bytes 8 and 10, each rounded to hundredths and so in [-45, 130] and [0, 100], and battery byte 12, with no water level |
| BleCodec.Parse39F5Format | backend/src/services/bleParser.service.ts:140-143 | JHT-UP shares the F525 layout: every buffer decodes as the F525 parser decodes it |
| BleCodec.Parse35F5Format | backend/src/services/bleParser.service.ts:149-164 | a PT100 buffer decodes exactly when it has at least 12 bytes, to the MAC at offset 2 and the rounded binary32 value of bytes 8..11, with no humidity or water level; the temperature is absent exactly when that word is NaN; the battery is present exactly when there is a 13th byte |
| BleCodec.ParseJwuFormat | backend/src/services/bleParser.service.ts:170-188 | a JW-U buffer decodes exactly when it has at least 9 bytes, to the MAC at offset 0, the water level raw/65535·100 of the big-endian word at bytes 6..7, rounded to hundredths and so in [0, 100], and battery byte 8, with no temperature or humidity |
| BleCodec.ParseUndefinedIff | backend/src/services/bleParser.service.ts:196-244 | parsing never throws, and it returns undefined exactly when no family resolves, no buffer is available, or the buffer is shorter than the family's layout (13, 13, 12 or 9 bytes) |
| BleCodec.ParsePrefersManufacturerData | backend/src/services/bleParser.service.ts:209-216 | present manufacturer data is the buffer decoded, even for the JW-U family, so JW-U service data is read only without manufacturer data |
| BleCodec.ParsedReadingShape | backend/src/services/bleParser.service.ts:196-244 | every decoded reading carries a valid colon MAC, and the fields and ranges of its family; a PT100 reading has a temperature exactly when its word is not NaN, and lacks the battery exactly when the buffer has 12 bytes |
| BleCodec.MacBytes | backend/src/services/bleParser.service.ts:263-269 | whatever the MAC text, the encoder writes exactly six MAC bytes; `MacBytesOfColonMac` says which |
| BleCodec.EncodeBleData | backend/src/services/bleParser.service.ts:250-347 | an unknown type name fails as unsupported; otherwise the buffer has 13, 13, 13 or 9 bytes, and encoding fails exactly when a scaled 16-bit value falls outside 0..65535 |
| BleCodecProofs.Hex2OfHexPair | backend/src/services/bleParser.service.ts:102 | rendering the value of a two-digit hex field gives the field back in upper case |
| BleCodecProofs.MacBytesOfColonMac | backend/src/services/bleParser.service.ts:263-269 | for a colon MAC, encoder byte k is the value of the k-th hex pair |
| BleCodecProofs.MacTextRoundTrip | backend/src/services/bleParser.service.ts:263-269 | encoding a colon MAC and rendering the bytes gives the MAC in upper case |
| BleCodecProofs.MacBytesRoundTrip | backend/src/services/bleParser.service.ts:98-106 | rendering six bytes as a MAC and encoding the text gives the bytes back |
| BleCodecProofs.DeviceTypeNameRoundTrip | backend/src/services/bleParser.service.ts:13-18 | each family's enum string names that family when passed back to the encoder |
| BleCodecProofs.TemperatureScaleRoundTrip | backend/src/services/bleParser.service.ts:271-275 | scaling a temperature to 16 bits and back, with both roundings, moves it by at most 0.01 |
| BleCodecProofs.PercentScaleRoundTrip | backend/src/services/bleParser.service.ts:277-281 | scaling a percentage to 16 bits and back, with both roundings, moves it by at most 0.01 |
| BleCodecProofs.EncodeInRangeSucceeds | backend/src/services/bleParser.service.ts:271-281 | temperatures in [-45, 130] and percentages in [0, 100] always fit the 16-bit fields, so encoding them succeeds |
| BleCodecProofs.ComboEncoding | backend/src/services/bleParser.service.ts:255-289 | the F525/39F5 encoder writes the id little-endian, the six MAC bytes, temperature and humidity big-endian, and the battery byte |
| BleCodecProofs.ComboDecoding | backend/src/services/bleParser.service.ts:114-134 | that layout decodes field by field to the same MAC bytes, raw values and battery |
| BleCodecProofs.ParseByManufacturerId | backend/src/services/bleParser.service.ts:196-225 | manufacturer data with a known id is decoded in that id's layout when no type is given |
| BleCodecProofs.RoundTripCombo | backend/src/services/bleParser.service.ts:250-289 | an encoded F525/39F5 reading is identified as its family and decodes to the MAC in upper case, the same battery, and temperature and humidity within 0.01 |
| BleCodecProofs.ProbeEncoding | backend/src/services/bleParser.service.ts:291-316 | the PT100 encoder writes the id, the MAC bytes, the binary32 word of the temperature and the battery byte, and never fails |
| BleCodecProofs.ProbeDecoding | backend/src/services/bleParser.service.ts:149-164 | that layout decodes to the MAC, the rounded binary32 value (none for a NaN word) and the battery, with no humidity |
| BleCodecProofs.RoundTripProbe | backend/src/services/bleParser.service.ts:291-316 | an encoded PT100 reading whose word reads back as a number is identified as PT100 and decodes to the upper-case MAC, the battery, no humidity and the temperature within the codec's accuracy plus 0.005 |
| BleCodecProofs.WaterEncoding | backend/src/services/bleParser.service.ts:318-342 | the JW-U encoder writes the MAC bytes, the big-endian level and the battery byte, with no leading id |
| BleCodecProofs.WaterDecoding | backend/src/services/bleParser.service.ts:170-188 | that layout decodes to the MAC, the rounded level and the battery |
| BleCodecProofs.RoundTripWater | backend/src/services/bleParser.service.ts:318-342 | an encoded JW-U reading carried as service data is identified as JW-U and decodes to the upper-case MAC, the battery and the level within 0.01 |
| BleCodecProofs.GatewayReading | backend/src/services/bleParser.service.ts:121-126 | raw temperature 26214, raw humidity 39321 and battery 85 read as 25.00 °C, 60.00 % and 85 |
| BleCodecProofs.ProbeReading | backend/src/services/bleParser.service.ts:155-157 | a probe word whose value is -15.5 reads as -15.50 °C with no humidity |
| HexParser.StripPrefix | utils/bleParser.ts:25 | exactly one leading "0x" or "0X" is removed when present, and nothing else changes |
| HexParser.RemoveFormatting | utils/bleParser.ts:25 | no comma, white space, quote or bracket survives, and the survivors come from the input |
| HexParser.RemoveFormattingAppend | utils/bleParser.ts:25 | removal works character by character: it distributes over concatenation |
| HexParser.RemoveFormattingIdentity | utils/bleParser.ts:25 | a string without formatting characters passes through unchanged |
| HexParser.RemoveFormattingAll | utils/bleParser.ts:25 | a string made only of formatting characters is removed entirely |
| HexParser.NormalizeClean | utils/bleParser.ts:25 | a normalised string holds no formatting character and no lower-case ASCII letter |
| HexParser.NormalizeFixed | utils/bleParser.ts:25 | normalisation is idempotent: a string without formatting, lower-case letters or a leading 0x is already normalised |
| HexParser.NormalizeHexDigits | utils/bleParser.ts:25 | a string of hex digits normalises to its upper-case form |
| HexParser.NormalizeGroups | utils/bleParser.ts:25 | "0x" followed by two digit groups and any separators normalises to the upper-case digits alone |
| HexParser.Ieee754 | utils/bleParser.ts:13-21 | a word that does not parse or parses to 0 gives 0; any other result, NaN included, comes from a word whose 32-bit value is non-zero, and NaN only from a word the binary32 read turns into NaN |
| HexParser.Ieee754OfDigits | utils/bleParser.ts:13-21 | eight hex digits are the big-endian binary32 word they spell, and the all-zero word gives 0 |
| HexParser.Reported | utils/bleParser.ts:93-96 | a value is reported exactly when it is a number other than 0, and it is reported within 0.005 |
| HexParser.FrameAt | utils/bleParser.ts:35-38 | a frame, when there is one, has exactly the 12 characters the field offsets read |
| HexParser.ParseNormalized | utils/bleParser.ts:30-91 | the UNKNOWN type reports nothing, and a 35F5 frame never reports humidity |
| HexParser.FirstOccurrenceFrame | utils/bleParser.ts:35-40 | the frame starts at the first occurrence of the pattern, and only when 12 characters remain from there |
| HexParser.FirstOccurrenceRead | utils/bleParser.ts:35-52 | the fields are read from the frame at the first occurrence; with fewer than 12 characters left, nothing is reported |
| HexParser.MissingPatternReportsNothing | utils/bleParser.ts:36-38 | without the pattern both fields are undefined |
| HexParser.ZeroHumidityUnreported | utils/bleParser.ts:93-96 | a humidity field "0000" computes to 0, which is falsy, so no humidity is reported |
| HexParser.ZeroProbeWordUnreported | utils/bleParser.ts:13-21 | a probe word of value 0 gives temperature 0, which is reported as undefined |
| HexParser.NaNProbeWordUnreported | utils/bleParser.ts:13-21 | the quiet NaN word "7FC00000" gives a NaN temperature, which is falsy and reported as undefined |
| HexParser.HexDigitsInRange | utils/bleParser.ts:46-72 | when the normalised string holds only hex digits, reported F525/39F5 values lie in [-45, 130] and [0, 100] |
| HexParser.FieldInRange | utils/bleParser.ts:42-51 | a four-character field of hex digits, or any four-character field under the corrected conversion, reports a temperature in [-45, 130] and a humidity in [0, 100] |
| HexParser.SignedFieldBelowRange | utils/bleParser.ts:8-10 | as written, "F525-FFF0000" reports a temperature below -45, because `parseInt` accepts the sign |
| HexParser.SignedFieldValue | utils/bleParser.ts:8-10 | `parseInt("-FFF", 16)` is -4095 |
| HexParser.HexDigitsValue | utils/bleParser.ts:8-10 | the corrected field conversion yields a number only for a field of hex digits, below 16 to the power of its length, and on every non-empty field of hex digits it agrees with `parseInt` |
| HexParser.CheckedInRange | utils/bleParser.ts:46-72 | with the corrected conversion, reported F525/39F5 values lie in [-45, 130] and [0, 100] for every input |
| HexParser.CheckedAgreesOnHexDigits | utils/bleParser.ts:8-10 | on strings of hex digits, the corrected parser and the original agree |
| HexParser.ReadFromStart | utils/bleParser.ts:35-52 | a 12-character frame without formatting characters or lower-case letters that starts with the pattern is read, unchanged, from position 0 |
| HexParser.GatewayExample | utils/bleParser.ts:33-51 | the example frame "F52565823D1A" reads as 24.39 °C and 23.87 % |
| HexParser.ExampleRounding | utils/bleParser.ts:46-51 | raw values 25986 and 15642 scale and round to 24.39 and 23.87 |
| ScanClassifier.Or | mobile/src/utils/bleParser.ts:8-10 | `a \|\| b` is truthy exactly when either operand is truthy, and it is `a` when `a` is truthy |
| ScanClassifier.OrNumber | mobile/src/utils/bleParser.ts:9 | `a \|\| b` on numbers keeps `a` unless it is absent or 0 |
| ScanClassifier.LocalName | mobile/src/utils/bleParser.ts:8 | the name is present exactly when one of localName, name or deviceName is non-empty |
| ScanClassifier.MacOf | mobile/src/utils/bleParser.ts:10 | the MAC is present exactly when one of id, mac or address is non-empty |
| ScanClassifier.ManufacturerPayload | mobile/src/utils/bleParser.ts:29 | the payload is truthy exactly when manufacturerData or manufacturer is, and manufacturerData wins when truthy |
| ScanClassifier.FamilyOfName | mobile/src/utils/bleParser.ts:22 | as written: F525, else 39F5, else 35F5, each matched case-insensitively, else 'unknown'; "JHT" is not consulted |
| ScanClassifier.FamilyOfNameCorrected | mobile/src/utils/bleParser.ts:22 | the corrected type is known exactly when the name passes the family filter, and it agrees with the original whenever the original is known |
| ScanClassifier.Classify | mobile/src/utils/bleParser.ts:6-36 | a record keeps the raw input, the MAC and the RSSI, and its id is the MAC when present, else the name |
| ScanClassifier.RecognisedIff | mobile/src/utils/bleParser.ts:12-35 | a device is recognised exactly when it has a name or a MAC, and its name passes the family filter or its string manufacturer data mentions "JHT" |
| ScanClassifier.NameBranch | mobile/src/utils/bleParser.ts:15-25 | a name match wins over the manufacturer payload; the record has that name and the type computed from it |
| ScanClassifier.ManufacturerBranch | mobile/src/utils/bleParser.ts:28-32 | failing a name match, a JHT manufacturer payload gives type F525 and the name 'JHT Sensor' when the device has none |
| ScanClassifier.CorrectedDiffersOnlyOnJht | mobile/src/utils/bleParser.ts:22 | the corrected classifier recognises the same devices and differs only where the original says 'unknown' |
| ScanClassifier.CorrectedAlwaysKnown | mobile/src/utils/bleParser.ts:22 | under the corrected rule every recognised device gets a family |
| ScanClassifier.JhtNameIsUnknown | mobile/src/utils/bleParser.ts:22 | a device named "JHT" passes the filter but is typed 'unknown' as written, and F525 under the corrected rule |
| Alerts.Find | backend/src/services/alert.service.ts:182 | the entry found for (parameter, condition) is in the list and has that pair; none is found exactly when no entry has the pair |
| Alerts.AddIfNotPresent | backend/src/services/alert.service.ts:174-191 | the list only grows at the end, the first entry for a pair wins, and a list without duplicate pairs keeps none |
| Alerts.AddFindOther | backend/src/services/alert.service.ts:174-191 | adding an entry leaves the entries of every other pair unchanged |
| Alerts.Consider | backend/src/services/alert.service.ts:151-156 | one bound test never introduces a duplicate pair |
| Alerts.ConsiderFind | backend/src/services/alert.service.ts:151-156 | one bound test adds an entry for its pair exactly when the value is present, strictly violates a set bound, and the pair is absent; the threshold is the bound |
| Alerts.HumiditySafety | backend/src/services/alert.service.ts:99-103 | the humidity safety rule behaves as a below-30 test followed by an above-70 test |
| Alerts.CandidatesDistinct | backend/src/services/alert.service.ts:174-191 | the candidate list never holds two entries with the same parameter and condition |
| Alerts.CandidatesExpected | backend/src/services/alert.service.ts:88-103 | the candidate for each (parameter, condition) violates the configured bound, or else the safety limit, with that bound as threshold; a configured violation beats the safety limit |
| Alerts.NoMinForGases | backend/src/services/alert.service.ts:91-93 | co2, pm25 and tvoc never yield a BELOW_MIN candidate |
| Alerts.UnconfiguredTemperatureSilent | backend/src/services/alert.service.ts:89 | temperature has no safety limit, so without configured bounds it yields nothing |
| Alerts.Unbounded | backend/src/services/alert.service.ts:140-172 | a pair with neither a configured bound nor a safety limit never yields a candidate |
| Alerts.Latest | backend/src/services/alert.service.ts:113-120 | the latest alert of a kind is the maximum creation time among the sensor's alerts with that parameter and condition, and it is absent exactly when none exists |
| Alerts.CooldownPassedIff | backend/src/services/alert.service.ts:122 | a candidate passes the cooldown exactly when every earlier alert of its kind is strictly more than the cooldown old |
| Alerts.Emit | backend/src/services/alert.service.ts:111-135 | at most one alert per candidate is created, each with the sensor's user, the reading's sensor, the current time and a fresh id |
| Alerts.EmitIsPassing | backend/src/services/alert.service.ts:111-137 | for distinct candidates, the loop creates exactly the candidates that pass against the table before the call, in candidate order |
| Alerts.CheckReadingForAlerts | backend/src/services/alert.service.ts:75-138 | a missing sensor, a missing or disabled configuration changes nothing and returns []; otherwise only new alerts are appended, all for the sensor's user and the reading's sensor |
| Alerts.CreatedArePassing | backend/src/services/alert.service.ts:105-137 | the created alerts are the candidates that pass the cooldown, in candidate order |
| Alerts.SameInstantQuiet | backend/src/services/alert.service.ts:107-135 | when the sensor's cooldown is not negative (every cooldown the alert routes accept, and any non-negative one a sync writes), checking the same reading again at the same instant creates nothing |
| Alerts.UserAlerts | backend/src/services/alert.service.ts:204 | the user's alerts are exactly the stored alerts with that user id |
| Alerts.AlertHistory | backend/src/services/alert.service.ts:197-221 | page is at least 1 and limit lies in 1..100; total counts the user's alerts; the page is exactly the user's alerts, newest first, from position (page - 1) * limit on, as many as limit allows and the total leaves |
| Alerts.AlertHistoryHasMore | backend/src/services/alert.service.ts:213-220 | total counts all of the user's alerts, and hasMore holds exactly when the next page is non-empty |
| RateLimit.RecordFailedAttempt | backend/src/middleware/rateLimit.middleware.ts:31-41 | attempts rise by exactly one from 0 for a new identifier; from the third attempt the block ends 60 s after now; no other identifier changes |
| RateLimit.GetRateLimitStatus | backend/src/middleware/rateLimit.middleware.ts:43-54 | the status is null for an unknown identifier; a passed block deletes the entry and returns null; otherwise the entry is returned unchanged |
| RateLimit.ClearRateLimit | backend/src/middleware/rateLimit.middleware.ts:56-58 | only the given identifier is removed |
| RateLimit.ClearAllRateLimits | backend/src/middleware/rateLimit.middleware.ts:60-62 | the map is emptied |
| RateLimit.CeilSeconds | backend/src/middleware/rateLimit.middleware.ts:73 | the reported seconds are the least whole number of seconds covering the remaining milliseconds |
| RateLimit.CheckRateLimit | backend/src/middleware/rateLimit.middleware.ts:67-81 | a request without an identifier passes; a request is blocked exactly when its block ends after now, and it is told the remaining seconds rounded up |
| RateLimit.BlockedSecondsInRange | backend/src/middleware/rateLimit.middleware.ts:72-73 | a blocked request waits between 1 and 60 seconds |
| RateLimit.BlocksWithinPreserved | backend/src/middleware/rateLimit.middleware.ts:29-62 | no operation creates a block lasting more than 60 s past the current time |
| RateLimit.NoTimeWindow | backend/src/middleware/rateLimit.middleware.ts:29-54 | an entry with fewer than three attempts never expires |
| RateLimit.ThirdFailureBlocks | backend/src/middleware/rateLimit.middleware.ts:35-38 | three failures block the identifier for the next 60 s |
| RateLimit.TwoFailuresPass | backend/src/middleware/rateLimit.middleware.ts:35-38 | two failures on a fresh identifier never block it |
| RateLimit.ExpiredBlockRestarts | backend/src/middleware/rateLimit.middleware.ts:48-51 | once a block has passed and the status is read, the next failure counts from one again |
| RateLimit.CheckFrame | backend/src/middleware/rateLimit.middleware.ts:67-81 | the check touches no entry but the requesting identifier's |
| VerificationCodes.CodeNumber | backend/src/services/verificationCode.service.ts:24 | for a random number in [0, 1), the code number lies in 100000..999999 |
| VerificationCodes.GenerateVerificationCode | backend/src/services/verificationCode.service.ts:23-25 | the code is exactly six decimal digits, and they spell the code number |
| VerificationCodes.RemoveIdentifier | backend/src/services/verificationCode.service.ts:43-45 | deleting by identifier keeps exactly the other identifiers' codes |
| VerificationCodes.CreateVerificationCode | backend/src/services/verificationCode.service.ts:32-72 | afterwards the identifier has exactly one code: the generated one, with no attempts, expiring five minutes after now; other identifiers' codes and the users are untouched |
| VerificationCodes.Newest | backend/src/services/verificationCode.service.ts:86-89 | the code found is the identifier's newest by creation time, and there is none exactly when the identifier has no code |
| VerificationCodes.DeleteCode | backend/src/services/verificationCode.service.ts:100-102 | deleting by id keeps exactly the codes with other ids |
| VerificationCodes.SetAttempts | backend/src/services/verificationCode.service.ts:110-113 | only the code with the id changes, and only its attempt count |
| VerificationCodes.FindUser | backend/src/services/verificationCode.service.ts:124-131 | the user found has the identifier as e-mail when it contains '@', else as phone, and none is found only when no user has it |
| VerificationCodes.TouchUser | backend/src/services/verificationCode.service.ts:143-147 | only the user with the id changes, and only its last login time |
| VerificationCodes.SignIn | backend/src/services/verificationCode.service.ts:123-148 | a signed-in user carries the identifier; an existing user keeps its id, and otherwise one user with the next id is appended |
| VerificationCodes.VerifyCode | backend/src/services/verificationCode.service.ts:80-167 | with no code the store is unchanged and the message says so; verification succeeds exactly when the newest code has not expired and matches, and the user then exists with the identifier |
| VerificationCodes.CheckCode | backend/src/services/verificationCode.service.ts:98-159 | an expired code is deleted with no attempt counted; otherwise attempts rise by one; a mismatch keeps the code; a match deletes it and signs in |
| VerificationCodes.CleanupExpiredCodes | backend/src/services/verificationCode.service.ts:193-208 | exactly the codes with expiresAt < now are deleted, and their number is returned |
| VerificationCodes.CreateThenVerify | backend/src/services/verificationCode.service.ts:32-159 | a code created at now verifies up to five minutes later and is then consumed |
| VerificationCodes.VerifyOnlyCode | backend/src/services/verificationCode.service.ts:85-159 | an identifier's only unexpired code verifies and leaves no code behind |
| VerificationCodes.MatchedCodeDeleted | backend/src/services/verificationCode.service.ts:150-153 | a matching, unexpired code is counted and then deleted |
| VerificationCodes.ExpiredIsDeleted | backend/src/services/verificationCode.service.ts:98-107 | after expiry the code is rejected as expired and deleted, and no attempt is counted |
| VerificationCodes.WrongCodeCounts | backend/src/services/verificationCode.service.ts:109-121 | a wrong code is rejected as invalid, the code is kept, and only its attempt count rises by one |
| VerificationCodes.CreateKeepsInvariants | backend/src/services/verificationCode.service.ts:42-55 | creating a code keeps ids unique and at most one code per identifier |
| AuthRoutes.IsEmailIffMatches | backend/src/routes/auth.routes.ts:26 | the direct e-mail test accepts exactly the language of /^[^\s@]+@[^\s@]+\.[^\s@]+$/ |
| AuthRoutes.IsPhone | backend/src/routes/auth.routes.ts:27 | the direct phone test accepts exactly the language of /^\+?[1-9]\d{1,14}$/, so at most 16 characters |
| AuthRoutes.PhoneDigitBounds | backend/src/routes/auth.routes.ts:27 | an accepted phone number has 2 to 15 digits, the E.164 maximum (clause 6 of ITU-T Recommendation E.164), and no leading zero |
| AuthRoutes.EmailIsNotPhone | backend/src/routes/auth.routes.ts:26-28 | no identifier passes both patterns |
| AuthRoutes.GeneratedCodeIsValid | backend/src/routes/auth.routes.ts:36 | every generated code passes the verify-code schema |
| AuthRoutes.SendCode | backend/src/routes/auth.routes.ts:43-84 | a locked identifier gets 429 before validation; an invalid body gets 400 and changes no code; otherwise 200 with the code stored for five minutes |
| AuthRoutes.UserById | backend/src/routes/auth.routes.ts:125-127 | the user found has the id, and none is found only when no user has it |
| AuthRoutes.VerifyCodeRoute | backend/src/routes/auth.routes.ts:90-159 | 429 when locked; 400 on an invalid body with no attempt recorded; 401 on a rejected code with a failed attempt recorded; 200 when verified, with the lockout cleared and the user present |
| AuthRoutes.ThreeFailuresLockOut | backend/src/routes/auth.routes.ts:110-118 | three rejected codes lock the identifier out for the next 60 s |
| AuthRoutes.SendThenVerify | backend/src/routes/auth.routes.ts:43-159 | a code sent to a valid identifier verifies within five minutes and lifts the lockout |
| SyncService.SensorWrite | backend/src/services/sync.service.ts:56-75 | an existing row at least as new as the op is kept; otherwise the payload is merged over the row, updatedAt becomes the op's time, and a new row gets the user as owner |
| SyncService.ApplySensor | backend/src/services/sync.service.ts:53-81 | a sensor delete removes the row only when the user owns it; creates and updates follow last-write-wins and spread no columns when the payload is missing; readings and configurations are untouched |
| SyncService.ApplyReading | backend/src/services/sync.service.ts:83-90 | only a create appends its payload; a create without a payload fails with the missing-data rejection; update and delete change nothing |
| SyncService.ApplyAlertConfig | backend/src/services/sync.service.ts:92-120 | the op fails exactly when the payload is missing (reading its sensorId throws) or the user owns no matching sensor, with the message of that case; a delete does nothing; creates and updates follow last-write-wins, write the payload's sensorId and columns over the row, and keep the row's other columns |
| SyncService.ApplyOpFails | backend/src/services/sync.service.ts:30-47 | an op fails exactly when it is a reading create without a payload or an alert configuration op without a payload or for a sensor the user does not own; sensor ops never fail; each failure carries its case's message |
| SyncService.Process | backend/src/services/sync.service.ts:29-50 | success plus failed equals the number of ops; every failure is recorded in errors with its op; no sensor op fails; a failed op that has a payload is an access-denied alert configuration op |
| SyncService.ProcessBatchSync | backend/src/services/sync.service.ts:18-51 | success plus failed equals the number of ops, and every recorded error belongs to one of them |
| SyncService.OrderedBatchAppliedAsGiven | backend/src/services/sync.service.ts:26 | a batch already in timestamp order is applied as given |
| SyncService.EqualTimestampsKeepOrder | backend/src/services/sync.service.ts:26 | ops sharing a timestamp are applied in their input order |
| SyncService.OpKeepsSensorTimes | backend/src/services/sync.service.ts:57-61 | no op lowers the updatedAt of a sensor that survives it |
| SyncService.BatchKeepsSensorTimes | backend/src/services/sync.service.ts:30-48 | without sensor deletes, a batch loses no sensor and lowers no updatedAt |
| SyncService.ReplayIsNoOp | backend/src/services/sync.service.ts:59-60 | replaying a sensor or configuration write changes nothing |
| SyncService.LaterWriteWins | backend/src/services/sync.service.ts:57-75 | of two writes to a sensor, the later one's time and fields win in either arrival order |
| SyncService.DeleteScopedToUser | backend/src/services/sync.service.ts:76-80 | a sensor delete leaves other users' sensors alone |
| SyncService.ConfigFollowsPayloadSensor | backend/src/services/sync.service.ts:95-117 | a written alert configuration with a sensorId in its payload now belongs to that sensor, which the user owns |
| SyncService.SensorWriteIgnoresOwner | backend/src/services/sync.service.ts:63-75 | a newer sensor write overwrites a row another user owns, keeping that owner |
| SyncService.ReadingsOnlyGrow | backend/src/services/sync.service.ts:83-90 | readings are only appended, at most one per op |
| Ordering.SortByKey | backend/src/services/sync.service.ts:26 | the result is sorted by the key and is a permutation of the input |
| Ordering.SortStable | backend/src/services/sync.service.ts:26 | the sort is stable: the elements sharing a key keep their relative order |
| Ordering.SortSortedIdentity | backend/src/services/sync.service.ts:26 | sorting input that is already in order changes nothing |
| Ordering.Window | backend/src/services/sensor.service.ts:61-65 | a window holds the rows from skip on, at most take of them, and as many as remain |
| Ordering.HasMoreIffNextWindow | backend/src/services/sensor.service.ts:79 | with the full count as total, hasMore holds exactly when the next window is non-empty |
| Pagination.Middleware | backend/src/middleware/pagination.middleware.ts:22-34 | page is at least 1, and 1 when missing or not positive; limit lies in 1..100, is 50 when missing or 0, and is clamped otherwise; skip is (page - 1) pages of limit rows |
| Pagination.SkipOf | backend/src/middleware/pagination.middleware.ts:25 | skip is non-negative, a multiple of limit, and the number of earlier pages times limit |
| Pagination.ServiceQuery | backend/src/services/sensor.service.ts:56-58 | page is at least 1; limit is 50 when missing or 0 and at most 100; skip is (page - 1) · limit |
| Pagination.MiddlewareAgreesWithServices | backend/src/middleware/pagination.middleware.ts:23-25 | on the non-negative numbers the routes let through, the middleware and the services compute the same page, limit and skip |
| Sensors.ExtractedMacIsValid | backend/src/routes/sensor.routes.ts:14 | every MAC the telemetry codec renders passes the MAC schema, with its pairs the renderings of the bytes |
| Sensors.AliasBoundsCountUnits | backend/src/routes/sensor.routes.ts:15-20 | the alias bounds count UTF-16 code units: within the Basic Multilingual Plane an alias is valid exactly when it has 1 to 50 characters, and 26 characters from outside it are already too long |
| Sensors.SeparatorsAccepted | backend/src/routes/sensor.routes.ts:14 | the MAC schema accepts colon MACs and also a dash separator |
| Sensors.DeviceTypeNames | backend/src/routes/sensor.routes.ts:16 | the schema accepts exactly the four device types' names |
| Sensors.ParsePagination | backend/src/routes/sensor.routes.ts:24-27 | page and limit are taken only from all-digit strings, and a failing field drops both |
| Sensors.CreateSensor | backend/src/services/sensor.service.ts:30-49 | a new sensor gets the next id and an enabled alert configuration with a 15-minute cooldown; it fails exactly when the user already has the MAC |
| Sensors.GetSensors | backend/src/services/sensor.service.ts:55-82 | total counts the user's sensors; the page is exactly the user's sensors, newest first, from position (page - 1) * limit on, as many as limit allows and the total leaves |
| Sensors.GetSensorsHasMore | backend/src/services/sensor.service.ts:73-80 | hasMore holds exactly when the next page is non-empty |
| Sensors.GetSensorById | backend/src/services/sensor.service.ts:87-94 | the sensor found has the id and the user, and none is found only when the user owns no sensor with the id |
| Sensors.UpdateSensor | backend/src/services/sensor.service.ts:99-107 | only rows matching both id and user change, and only their alias and isActive; the count is the number of matching rows |
| Sensors.DeleteSensor | backend/src/services/sensor.service.ts:112-116 | exactly the rows matching both id and user are removed, and the count says how many |
| Sensors.CreateRoute | backend/src/routes/sensor.routes.ts:92-130 | 400 exactly on a schema failure, the alias bounds counting UTF-16 code units; 409 exactly on a MAC the user already has; 201 appends the user's new sensor |
| Sensors.UpdateRoute | backend/src/routes/sensor.routes.ts:136-170 | 400 exactly on an invalid alias, its length counted in UTF-16 code units; 404 exactly when the user owns no sensor with the id; the table changes only on 200, and then it is the table the user-scoped update leaves |
| Sensors.DeleteRoute | backend/src/routes/sensor.routes.ts:176-200 | 404 exactly when the user owns no sensor with the id, and then nothing changes; on 200 the table is the one the user-scoped delete leaves |
| Sensors.SecondCreateConflicts | backend/src/routes/sensor.routes.ts:116-122 | registering a MAC twice for one user answers 409, and another user may still register it |
| Sensors.CreatedDefaults | backend/src/services/sensor.service.ts:38-43 | a created sensor starts with alerts enabled and a cooldown the alert routes accept |
| Sensors.WritesScopedToUser | backend/src/services/sensor.service.ts:99-116 | one user's updates and deletes never touch another user's sensors |
| Sensors.UpdateThenRead | backend/src/services/sensor.service.ts:99-107 | after a successful alias update, reading the sensor back returns the new alias |
| Sensors.DeleteThenRead | backend/src/services/sensor.service.ts:112-116 | after a delete the user's sensor is gone |
| SensorData.RowOf | backend/src/services/sensorData.service.ts:33-43 | a stored row copies every measurement, and its timestamp is the given one or else now |
| SensorData.CreateReading | backend/src/services/sensorData.service.ts:31-45 | creating a reading appends exactly its row under the next id |
| SensorData.CreateReadingsBatch | backend/src/services/sensorData.service.ts:50-64 | a batch appends one row per input, in input order, and returns their number |
| SensorData.BatchIsSequential | backend/src/services/sensorData.service.ts:50-64 | the batch stores what creating each input in turn would |
| SensorData.WhereOf | backend/src/services/sensorData.service.ts:89-95 | the timestamp filter exists exactly when a start or end date is given, with those dates as bounds |
| SensorData.Filter | backend/src/services/sensorData.service.ts:98-104 | the selected rows are exactly the stored rows that meet the filter |
| SensorData.GetSensorHistory | backend/src/services/sensorData.service.ts:71-84 | the call fails with "Sensor not found or access denied" exactly when the user does not own the sensor; otherwise it returns the page `ReadingsPage` describes |
| SensorData.ReadingsPage | backend/src/services/sensorData.service.ts:86-116 | page is at least 1 and limit lies in 1..100; total counts the sensor's readings within the dates; the page is exactly those readings, newest first, from position (page - 1) * limit on, as many as limit allows and the total leaves, each of them stored, of the sensor and within the dates |
| SensorData.HistoryHasMore | backend/src/services/sensorData.service.ts:107-115 | hasMore holds exactly when the next page of the same query is non-empty |
| SensorData.DatesOnlyNarrow | backend/src/services/sensorData.service.ts:89-95 | without dates, every reading of the sensor is selected, and dates only narrow the selection |
| SensorData.StoredReadingListed | backend/src/services/sensorData.service.ts:97-105 | a reading stored without a timestamp for an owned sensor is counted by the undated history |
| SensorData.GetLatestReading | backend/src/services/sensorData.service.ts:121-135 | the call fails exactly when the user does not own the sensor; otherwise it returns a newest reading of the sensor, or none when it has no reading |
| Text.ParseIntHex | utils/bleParser.ts:8-10 | `parseInt(s, 16)` is NaN or a number whose magnitude is below 16 to the power of the string's length |
| Text.ParseIntHexOfDigits | utils/bleParser.ts:8-10 | on a non-empty string of hex digits, `parseInt(s, 16)` is the number the digits spell |
| Text.IndexOf | utils/bleParser.ts:36 | `indexOf` is the first position where the pattern occurs, and -1 exactly when it does not occur |
| Text.Split | backend/src/services/bleParser.service.ts:263 | `split` always returns at least one field |
| Text.SplitPairs | backend/src/services/bleParser.service.ts:263 | a string with the separator exactly at positions 3k+2 splits into its two-character fields |
| Text.JoinOfPairs | backend/src/services/bleParser.service.ts:106 | joining two-character fields puts field k at positions 3k and 3k+1 and the separator at 3k+2 |
| Text.Upper | backend/src/services/bleParser.service.ts:102 | upper-casing keeps the length and maps each character |
| Text.NatToStringRoundTrip | backend/src/services/verificationCode.service.ts:24 | reading back the decimal rendering of a natural gives the natural |
| Text.NatToStringLength | backend/src/services/verificationCode.service.ts:24 | a natural with k decimal digits renders as k characters |
| Text.Utf16Length | backend/src/routes/sensor.routes.ts:15 | a string's JavaScript length lies between its number of characters and twice that; it equals the number of characters exactly when every character is in the Basic Multilingual Plane, and is twice it when none is |
| Bytes.U16LE | backend/src/services/bleParser.service.ts:45 | a little-endian 16-bit read lies in 0..65535 |
| Bytes.U16BE | backend/src/services/bleParser.service.ts:121-122 | a big-endian 16-bit read lies in 0..65535 |
| Bytes.U16BEBytes | backend/src/services/bleParser.service.ts:274 | a big-endian 16-bit write produces the two bytes the big-endian read turns back into the value |
| Bytes.U16LEBytes | backend/src/services/bleParser.service.ts:260 | a little-endian 16-bit write produces the two bytes the little-endian read turns back into the value |
| Bytes.ToUint8 | backend/src/services/bleParser.service.ts:267 | a byte store keeps values in 0..255 and reduces others modulo 256 |
| Bytes.ToUint32 | utils/bleParser.ts:19 | `setUint32` keeps values below 2^32 and reduces others modulo 2^32 |
| Bytes.U32BEBytes | utils/bleParser.ts:19 | a big-endian 32-bit write produces four bytes whose big-endian value is the word |
| Bytes.Hex2Shape | backend/src/services/bleParser.service.ts:102 | a byte renders as two upper-case hex digits whose value is the byte |
| Decimal.MathRound | backend/src/services/bleParser.service.ts:273 | `Math.round` returns the integer nearest to x, with halves rounded up |
| Decimal.RoundMagnitude | backend/src/services/bleParser.service.ts:125-126 | a non-negative value rounds to a whole number of hundredths within half a hundredth of it, and a value exactly halfway goes up |
| Decimal.ToFixed2 | backend/src/services/bleParser.service.ts:125-126 | `parseFloat(x.toFixed(2))` lies within 0.005 of x; below 10^21 in magnitude it is a whole number of hundredths, and a tie goes away from zero; from 10^21 on x is kept |
| Decimal.ToFixed2Nearest | backend/src/services/bleParser.service.ts:125-126 | below 10^21 in magnitude no hundredth is nearer to x than the rounded value |
| Decimal.ToFixed2Monotone | backend/src/services/bleParser.service.ts:125-126 | rounding to hundredths never reverses the order of two values |
| Decimal.ToFixed2OfCents | backend/src/services/bleParser.service.ts:125-126 | a value that already has two decimals is unchanged |
| Decimal.ToFixed2Within | backend/src/services/bleParser.service.ts:125-126 | a value inside a range whose ends have two decimals stays inside it after rounding |

## Left out

- Persistence, the network and logging are not modelled: Prisma calls, `console` output, Express request objects and JSON responses. Each becomes a pure step over explicit tables, and a response is reduced to a status code and the fields the model needs.
- Database failures are not modelled: the catch branches that answer 500 ("Failed to create verification code", "Failed to verify code", "Internal server error", "Failed to create sensor") and the `return 0` of `cleanupExpiredCodes` on error. No model operation throws.
- The clock and the random number are not read: `Date.now()`, `new Date()` and `Math.random()` are parameters, and times are integer milliseconds.
- Floating point is not modelled: numbers are exact reals. A NaN produced by `parseInt` or by the binary32 read is `None`. Infinities do not occur.
- Decimal.ToFixed2: rounds exact reals half away from zero; `toFixed` rounds the binary double, which can differ on values exactly halfway in decimal.
- BleCodec.Float32Codec: the binary32 conversions `readFloatBE`/`writeFloatBE` and `getFloat32` are an abstract pair of functions; no bit layout is modelled. The NaN words are whatever words the read maps to `None`, and a word that denotes an infinity has no representation.
- BleCodec.Parse35F5Format: for a NaN word the model's temperature is absent; `parse35F5Format` returns the number NaN in that field, which the model cannot hold.
- BleCodecProofs.RoundTripProbe: assumes the binary32 codec's accuracy on the given temperature as a parameter, because that conversion is abstract.
- BleCodec.EncodeBleData: treats a battery level as an integer; a fractional battery value would be truncated by the byte store, which is not modelled.
- Text.Upper: upper-cases only ASCII letters; `toUpperCase` also maps other letters (and 'ß' to "SS"), which changes only inputs holding such letters.
- HexParser.Normalize: uses the ASCII-only upper-casing above, so frame positions in inputs with non-ASCII letters may differ.
- Strings are sequences of Unicode scalar values; where the source counts a string's length (the alias bounds) the model counts UTF-16 code units with `Text.Utf16Length`. Lone surrogates and normalisation are not modelled.
- The JWT token, the refresh route and the authentication middleware are outside this model; verify-code ends at the user id.
- AuthRoutes.SendCode: the zod error details in a 400 body are not modelled, only the status and "Validation error".
- VerificationCodes.FindUser: looks the user up by e-mail when the identifier holds '@' and by phone otherwise; Prisma's handling of an `undefined` member inside `OR` is not modelled.
- The mock delivery of the code (`mockSendVerificationCode`) is I/O and is left out.
- VerificationCodes.Newest: on equal creation times the database's choice is unspecified; the model takes the later row.
- Alerts: the push notification (`sendAlertNotification`) is I/O and is left out, and so is the race between reading the latest alert and creating one.
- Alerts: `getAlertConfig`, `updateAlertConfig` and `acknowledgeAlert` only forward to the database and are outside this model.
- Alerts.SameInstantQuiet: assumes the sensor's cooldown is not negative; a negative cooldown, which only a synced configuration could store, lets the same reading alert again.
- Sensors.CreateSensor: the database's unique key is taken to be the (user, MAC) pair that the 409 message names; the schema file is not part of this model.
- Row ids of sensors, readings, codes, users and alerts are naturals handed out in sequence; the database generates string identifiers, and only their equality matters here.
- Ordering among equal sort keys for `orderBy createdAt/timestamp desc` is unspecified in the database; the model keeps storage order.
- SyncService.SensorWrite: treats the payload as columns other than id, owner and updatedAt; a payload naming those columns, or columns the table lacks, is not modelled.
- SyncService.Process: a payload is either missing (`undefined` or `null`) or a record of columns; a payload of another type is not modelled. The database's own rejections inside the sync loop are not modelled either: a reading row lacking required columns, a write breaking a foreign key, and an alert configuration written onto a sensor that already has one (its `sensorId` is unique). Each of these would be one more counted failure. The failure messages are the key line of the engine's text: for a `null` payload the `TypeError` says "null", and Prisma's rejection of a missing `data` is longer.
- The global request limiter (`globalRateLimiter`) wraps an external library and is left out.
- ScanClassifier: `parseAdvertising` takes an untyped object; the model fixes the fields it reads, and a manufacturer payload is text, another truthy value, or missing.

## Findings

| source | as written | input that shows it | evidently intended | confidence | as-written member | corrected member |
|---|---|---|---|---|---|---|
| utils/bleParser.ts:8-10 | `hex2dec` is `parseInt(hex, 16)`, which accepts a leading sign and a `0x` prefix, and normalisation keeps '-' | raw data "F525-FFF0000": the temperature field "-FFF" reads -4095, so the temperature is below -45 °C | fields are four hex digits, so temperatures lie in [-45, 130] and humidities in [0, 100] | not executed | HexParser.SignedFieldBelowRange | HexParser.CheckedInRange |
| mobile/src/utils/bleParser.ts:22 | the family filter accepts names containing "JHT", but the type expression never tests "JHT" | a device named "JHT" gets type 'unknown' | a JHT name is the F525 gateway, as the heuristic's comment and the manufacturer branch say | not executed | ScanClassifier.JhtNameIsUnknown | ScanClassifier.CorrectedAlwaysKnown |
