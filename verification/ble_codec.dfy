/** The telemetry codec of the backend BLE parser service: it identifies
    which of four sensor families sent an advertisement, decodes the
    family's fixed byte layout into a reading, and encodes a reading back
    into that layout.

    An advertisement carries Bluetooth "Manufacturer Specific Data" and
    "Service Data" (Bluetooth Core Specification Supplement, Part A,
    sections 1.4 and 1.11), already extracted into byte buffers. The PT100
    probe reports an IEEE 754 binary32 value (IEEE 754-2008, section 3.4);
    its bit-level conversion is kept abstract as a pair of functions. */
module BleCodec {
  import opened Wrappers
  import opened Text
  import opened Bytes
  import opened Decimal

  datatype DeviceType = F525Gateway | JhtUp39F5 | WifiPt10035F5 | JwUWater {
    /** The enum's string value. */
    function Name(): string {
      match this
      case F525Gateway => "F525_GATEWAY"
      case JhtUp39F5 => "JHT_UP_39F5"
      case WifiPt10035F5 => "WIFI_PT100_35F5"
      case JwUWater => "JW_U_WATER"
    }
  }

  /** Four bytes holding a big-endian binary32 value. */
  type Word4 = s: seq<byte> | |s| == 4 witness [0, 0, 0, 0]

  /** `buf.readFloatBE` (`decode`) and `buf.writeFloatBE` (`encode`).
      A word that denotes NaN decodes to `None`; infinities are not
      represented. */
  datatype Float32Codec = Float32Codec(decode: Word4 -> Option<real>, encode: real -> Word4)

  /** One advertisement as the scanner hands it over. A present buffer is
      truthy even when it is empty. */
  datatype AdvertisingData = AdvertisingData(
    manufacturerData: Option<seq<byte>>,
    serviceData: Option<map<string, seq<byte>>>,
    localName: Option<string>)

  datatype ParsedSensorData = ParsedSensorData(
    temperature: Option<real>,
    humidity: Option<real>,
    batteryLevel: Option<byte>,
    waterLevel: Option<real>,
    mac: string)

  /** The partial reading `encodeBLEData` accepts: every field optional. */
  datatype SensorFields = SensorFields(
    temperature: Option<real>,
    humidity: Option<real>,
    batteryLevel: Option<int>,
    waterLevel: Option<real>,
    mac: Option<string>)

  datatype EncodeError = UnsupportedDeviceType(name: string) | ValueOutOfRange

  const ManufacturerIdF525: nat := 0xF525
  const ManufacturerId39F5: nat := 0x39F5
  const ManufacturerId35F5: nat := 0x35F5

  /** The 16-bit service UUID 0xFFF0 expanded with the Bluetooth Base UUID
      (Core Specification Vol 3, Part B, section 2.5.1), in the lower-case
      form the scanner uses as the service-data key. */
  const JwuServiceUuid: string := "0000fff0-0000-1000-8000-00805f9b34fb"

  const DefaultMac: string := "00:00:00:00:00:00"

  function ManufacturerId(t: DeviceType): nat
    requires t != JwUWater
  {
    match t
    case F525Gateway => ManufacturerIdF525
    case JhtUp39F5 => ManufacturerId39F5
    case WifiPt10035F5 => ManufacturerId35F5
  }

  /** The shortest buffer each family's parser accepts. */
  function MinLength(t: DeviceType): nat {
    match t
    case F525Gateway => 13
    case JhtUp39F5 => 13
    case WifiPt10035F5 => 12
    case JwUWater => 9
  }

  // ---------------------------------------------------------------------
  // identifyDeviceType
  // ---------------------------------------------------------------------

  function FromManufacturerId(id: nat): Option<DeviceType> {
    if id == ManufacturerIdF525 then Some(F525Gateway)
    else if id == ManufacturerId39F5 then Some(JhtUp39F5)
    else if id == ManufacturerId35F5 then Some(WifiPt10035F5)
    else None
  }

  /** The name hints, tried in order with case-sensitive substring tests. */
  function FromLocalName(name: string): Option<DeviceType> {
    if Contains(name, "JHT") || Contains(name, "F525") then Some(F525Gateway)
    else if Contains(name, "39F5") then Some(JhtUp39F5)
    else if Contains(name, "PT100") || Contains(name, "35F5") then Some(WifiPt10035F5)
    else if Contains(name, "JW-U") || Contains(name, "Water") then Some(JwUWater)
    else None
  }

  /** The family the manufacturer data names, if it has at least two bytes
      and its little-endian leading id is a known one. */
  function ManufacturerMatch(ad: AdvertisingData): Option<DeviceType> {
    if ad.manufacturerData.Some? && |ad.manufacturerData.value| >= 2 then
      FromManufacturerId(U16LE(ad.manufacturerData.value, 0))
    else None
  }

  predicate HasJwuServiceData(ad: AdvertisingData) {
    ad.serviceData.Some? && JwuServiceUuid in ad.serviceData.value
  }

  /** `identifyDeviceType(ad)`; `None` is `null`. */
  function IdentifyDeviceType(ad: AdvertisingData): Option<DeviceType> {
    match ManufacturerMatch(ad)
    case Some(t) => Some(t)
    case None =>
      if HasJwuServiceData(ad) then Some(JwUWater)
      else if ad.localName.Some? then FromLocalName(ad.localName.value)
      else None
  }

  /** Manufacturer data whose leading id names a family decides the family,
      whatever the service data and the name say. */
  lemma IdentifyByManufacturerId(ad: AdvertisingData, t: DeviceType)
    requires t != JwUWater
    requires ad.manufacturerData.Some? && |ad.manufacturerData.value| >= 2
    requires ad.manufacturerData.value[0] as int + 256 * ad.manufacturerData.value[1] as int == ManufacturerId(t)
    ensures IdentifyDeviceType(ad) == Some(t)
  {
  }

  /** Without a known manufacturer id, a service-data entry under the JW-U
      UUID decides JW-U, whatever the name says. */
  lemma IdentifyByServiceData(ad: AdvertisingData)
    requires ManufacturerMatch(ad).None? && HasJwuServiceData(ad)
    ensures IdentifyDeviceType(ad) == Some(JwUWater)
  {
  }

  /** Otherwise the name hints decide, in the fixed order JHT/F525, 39F5,
      PT100/35F5, JW-U/Water; with no hint the family is unknown. */
  lemma IdentifyByName(ad: AdvertisingData, name: string)
    requires ManufacturerMatch(ad).None? && !HasJwuServiceData(ad) && ad.localName == Some(name)
    ensures IdentifyDeviceType(ad) == Some(F525Gateway) <==> Contains(name, "JHT") || Contains(name, "F525")
    ensures IdentifyDeviceType(ad) == Some(JhtUp39F5) <==>
      !Contains(name, "JHT") && !Contains(name, "F525") && Contains(name, "39F5")
    ensures IdentifyDeviceType(ad) == Some(WifiPt10035F5) <==>
      !Contains(name, "JHT") && !Contains(name, "F525") && !Contains(name, "39F5")
      && (Contains(name, "PT100") || Contains(name, "35F5"))
    ensures IdentifyDeviceType(ad) == None <==>
      !Contains(name, "JHT") && !Contains(name, "F525") && !Contains(name, "39F5")
      && !Contains(name, "PT100") && !Contains(name, "35F5")
      && !Contains(name, "JW-U") && !Contains(name, "Water")
  {
  }

  /** A record with no usable manufacturer id, no JW-U service data and no
      name is unknown. */
  lemma IdentifyWithoutEvidence(ad: AdvertisingData)
    requires ManufacturerMatch(ad).None? && !HasJwuServiceData(ad) && ad.localName.None?
    ensures IdentifyDeviceType(ad).None?
  {
  }

  /** A pattern holding a character the text lacks does not occur in it. */
  lemma AbsentCharacter(s: string, pat: string, c: char)
    requires c in pat && c !in s
    ensures !Contains(s, pat)
  {
  }

  /** Name matching is case-sensitive: every hint holds an upper-case
      letter, so a name without upper-case ASCII letters ("jht-f525")
      identifies nothing. */
  lemma IdentifyIsCaseSensitive(ad: AdvertisingData, name: string)
    requires ManufacturerMatch(ad).None? && !HasJwuServiceData(ad) && ad.localName == Some(name)
    requires forall i | 0 <= i < |name| :: !('A' <= name[i] <= 'Z')
    ensures IdentifyDeviceType(ad).None?
  {
    assert 'J' !in name && 'F' !in name && 'P' !in name && 'W' !in name;
    AbsentCharacter(name, "JHT", 'J');
    AbsentCharacter(name, "F525", 'F');
    AbsentCharacter(name, "39F5", 'F');
    AbsentCharacter(name, "PT100", 'P');
    AbsentCharacter(name, "35F5", 'F');
    AbsentCharacter(name, "JW-U", 'J');
    AbsentCharacter(name, "Water", 'W');
  }

  // ---------------------------------------------------------------------
  // extractMAC
  // ---------------------------------------------------------------------

  /** Six bytes rendered as upper-case two-digit hex groups joined by ':'. */
  function MacString(bs: seq<byte>): string
    requires |bs| == 6
  {
    Join(seq(6, i requires 0 <= i < 6 => Hex2(bs[i])), ":")
  }

  /** `extractMAC(data, offset)`; `None` is the thrown "Insufficient data". */
  function ExtractMac(data: seq<byte>, offset: nat): (r: Option<string>)
    ensures r.Some? <==> |data| >= offset + 6
    ensures r.Some? ==> r.value == MacString(data[offset..offset + 6])
  {
    if |data| < offset + 6 then None else Some(MacString(data[offset..offset + 6]))
  }

  /** Six groups of two hexadecimal digits (either case) separated by ':'. */
  predicate IsColonMac(mac: string) {
    |mac| == 17 && forall i | 0 <= i < 17 :: if i % 3 == 2 then mac[i] == ':' else IsHexDigit(mac[i])
  }

  /** A rendered MAC is 17 characters: upper-case hex pairs for the bytes
      in order, with ':' at every third position. */
  lemma MacStringShape(bs: seq<byte>)
    requires |bs| == 6
    ensures |MacString(bs)| == 17
    ensures forall i | 0 <= i < 17 ::
      MacString(bs)[i] == if i % 3 == 2 then ':' else Hex2(bs[i / 3])[i % 3]
    ensures forall i | 0 <= i < 17 && i % 3 != 2 :: IsUpperHexDigit(MacString(bs)[i])
    ensures IsColonMac(MacString(bs))
  {
    var parts := seq(6, i requires 0 <= i < 6 => Hex2(bs[i]));
    forall k | 0 <= k < 6 ensures |parts[k]| == 2 && IsUpperHexDigit(parts[k][0]) && IsUpperHexDigit(parts[k][1]) {
      Hex2Shape(bs[k]);
    }
    JoinOfPairs(parts, ':');
  }

  /** The `k`th hex pair of a rendered MAC is the rendering of byte `k`. */
  lemma MacGroup(bs: seq<byte>, k: nat)
    requires |bs| == 6 && k < 6
    ensures |MacString(bs)| == 17
    ensures MacString(bs)[3 * k..3 * k + 2] == Hex2(bs[k])
  {
    var mac := MacString(bs);
    MacStringShape(bs);
    Hex2Shape(bs[k]);
    var g := mac[3 * k..3 * k + 2];
    assert g[0] == mac[3 * k] && g[1] == mac[3 * k + 1];
    assert (3 * k) / 3 == k && (3 * k) % 3 == 0;
    assert (3 * k + 1) / 3 == k && (3 * k + 1) % 3 == 1;
  }

  // ---------------------------------------------------------------------
  // Scaling
  // ---------------------------------------------------------------------

  function TemperatureFromRaw(raw: int): real {
    raw as real / 65535.0 * 175.0 - 45.0
  }

  function PercentFromRaw(raw: int): real {
    raw as real / 65535.0 * 100.0
  }

  function TemperatureToRaw(t: real): int {
    MathRound((t + 45.0) * 65535.0 / 175.0)
  }

  function PercentToRaw(p: real): int {
    MathRound(p * 65535.0 / 100.0)
  }

  lemma TemperatureRange(raw: int)
    requires 0 <= raw < 65536
    ensures -45.0 <= ToFixed2(TemperatureFromRaw(raw)) <= 130.0
  {
    ToFixed2Within(TemperatureFromRaw(raw), -4500, 13000);
  }

  lemma PercentRange(raw: int)
    requires 0 <= raw < 65536
    ensures 0.0 <= ToFixed2(PercentFromRaw(raw)) <= 100.0
  {
    ToFixed2Within(PercentFromRaw(raw), 0, 10000);
  }

  // ---------------------------------------------------------------------
  // Family parsers; `None` is a thrown error
  // ---------------------------------------------------------------------

  /** F525 layout: id(2) MAC(6) temperature(2, BE) humidity(2, BE) battery(1). */
  function ParseF525Format(data: seq<byte>): (r: Option<ParsedSensorData>)
    ensures r.Some? <==> |data| >= 13
    ensures r.Some? ==>
      && r.value.mac == MacString(data[2..8])
      && r.value.temperature.Some? && -45.0 <= r.value.temperature.value <= 130.0
      && r.value.humidity.Some? && 0.0 <= r.value.humidity.value <= 100.0
      && r.value.batteryLevel == Some(data[12])
      && r.value.waterLevel.None?
    ensures r.Some? ==>
      && r.value.temperature == Some(ToFixed2(TemperatureFromRaw(U16BE(data, 8))))
      && r.value.humidity == Some(ToFixed2(PercentFromRaw(U16BE(data, 10))))
  {
    if |data| < 13 then None
    else
      var mac := ExtractMac(data, 2).value;
      var tempRaw := U16BE(data, 8);
      var humRaw := U16BE(data, 10);
      TemperatureRange(tempRaw);
      PercentRange(humRaw);
      Some(ParsedSensorData(
        Some(ToFixed2(TemperatureFromRaw(tempRaw))),
        Some(ToFixed2(PercentFromRaw(humRaw))),
        Some(data[12]),
        None,
        mac))
  }

  /** 39F5 shares the F525 layout. */
  function Parse39F5Format(data: seq<byte>): (r: Option<ParsedSensorData>)
    ensures r == ParseF525Format(data)
  {
    ParseF525Format(data)
  }

  /** 35F5 layout: id(2) MAC(6) binary32 temperature(4, BE) battery(1);
      the battery byte is optional. */
  function Parse35F5Format(codec: Float32Codec, data: seq<byte>): (r: Option<ParsedSensorData>)
    ensures r.Some? <==> |data| >= 12
    ensures r.Some? ==>
      && r.value.mac == MacString(data[2..8])
      && (r.value.temperature.Some? <==> codec.decode(data[8..12]).Some?)
      && (codec.decode(data[8..12]).Some? ==> r.value.temperature == Some(ToFixed2(codec.decode(data[8..12]).value)))
      && r.value.humidity.None? && r.value.waterLevel.None?
      && (r.value.batteryLevel.Some? <==> |data| >= 13)
      && (|data| >= 13 ==> r.value.batteryLevel == Some(data[12]))
  {
    if |data| < 12 then None
    else
      var mac := ExtractMac(data, 2).value;
      var word: Word4 := data[8..12];
      var temperature := match codec.decode(word)
        case None => None
        case Some(x) => Some(ToFixed2(x));
      Some(ParsedSensorData(
        temperature,
        None,
        if |data| >= 13 then Some(data[12]) else None,
        None,
        mac))
  }

  /** JW-U layout: MAC(6) level(2, BE) battery(1), no leading id. */
  function ParseJwuFormat(data: seq<byte>): (r: Option<ParsedSensorData>)
    ensures r.Some? <==> |data| >= 9
    ensures r.Some? ==>
      && r.value.mac == MacString(data[0..6])
      && r.value.waterLevel.Some? && 0.0 <= r.value.waterLevel.value <= 100.0
      && r.value.temperature.None? && r.value.humidity.None?
      && r.value.batteryLevel == Some(data[8])
    ensures r.Some? ==> r.value.waterLevel == Some(ToFixed2(PercentFromRaw(U16BE(data, 6))))
  {
    if |data| < 9 then None
    else
      var mac := ExtractMac(data, 0).value;
      var levelRaw := U16BE(data, 6);
      PercentRange(levelRaw);
      Some(ParsedSensorData(None, None, Some(data[8]), Some(ToFixed2(PercentFromRaw(levelRaw))), mac))
  }

  function ParseFormat(codec: Float32Codec, t: DeviceType, data: seq<byte>): Option<ParsedSensorData> {
    match t
    case F525Gateway => ParseF525Format(data)
    case JhtUp39F5 => Parse39F5Format(data)
    case WifiPt10035F5 => Parse35F5Format(codec, data)
    case JwUWater => ParseJwuFormat(data)
  }

  // ---------------------------------------------------------------------
  // parseBLEData
  // ---------------------------------------------------------------------

  /** The buffer to decode: the manufacturer data whenever present,
      otherwise the service data under the JW-U UUID. */
  function DecodeBuffer(ad: AdvertisingData): Option<seq<byte>> {
    if ad.manufacturerData.Some? then ad.manufacturerData
    else if ad.serviceData.Some? && JwuServiceUuid in ad.serviceData.value then Some(ad.serviceData.value[JwuServiceUuid])
    else None
  }

  /** `parseBLEData(ad, deviceType)`: never fails; `None` is `undefined`. */
  function ParseBleData(codec: Float32Codec, ad: AdvertisingData, deviceType: Option<DeviceType>): Option<ParsedSensorData> {
    var t := if deviceType.Some? then deviceType else IdentifyDeviceType(ad);
    match t
    case None => None
    case Some(family) =>
      match DecodeBuffer(ad)
      case None => None
      case Some(buf) =>
        ParseFormat(codec, family, buf)
  }

  /** The family used for decoding: the given one, else the identified one. */
  function ResolvedType(ad: AdvertisingData, deviceType: Option<DeviceType>): Option<DeviceType> {
    if deviceType.Some? then deviceType else IdentifyDeviceType(ad)
  }

  /** Decoding yields nothing exactly when no family resolves, no buffer is
      available, or the buffer is shorter than the family's layout. */
  lemma ParseUndefinedIff(codec: Float32Codec, ad: AdvertisingData, deviceType: Option<DeviceType>)
    ensures ParseBleData(codec, ad, deviceType).None? <==>
      || ResolvedType(ad, deviceType).None?
      || DecodeBuffer(ad).None?
      || |DecodeBuffer(ad).value| < MinLength(ResolvedType(ad, deviceType).value)
  {
  }

  /** Present manufacturer data is decoded even when the family is JW-U, so
      JW-U service data is read only in its absence. */
  lemma ParsePrefersManufacturerData(codec: Float32Codec, ad: AdvertisingData, t: DeviceType)
    requires ad.manufacturerData.Some?
    ensures ParseBleData(codec, ad, Some(t)) == ParseFormat(codec, t, ad.manufacturerData.value)
  {
  }

  /** Every decoded reading keeps the family's ranges and field set. */
  lemma ParsedReadingShape(codec: Float32Codec, ad: AdvertisingData, deviceType: Option<DeviceType>)
    requires ParseBleData(codec, ad, deviceType).Some?
    ensures var p := ParseBleData(codec, ad, deviceType).value;
      && IsColonMac(p.mac)
      && match ResolvedType(ad, deviceType).value
         case F525Gateway =>
           -45.0 <= p.temperature.value <= 130.0 && 0.0 <= p.humidity.value <= 100.0
           && p.batteryLevel.Some? && p.waterLevel.None?
         case JhtUp39F5 =>
           -45.0 <= p.temperature.value <= 130.0 && 0.0 <= p.humidity.value <= 100.0
           && p.batteryLevel.Some? && p.waterLevel.None?
         case WifiPt10035F5 =>
           (p.temperature.Some? <==> codec.decode(DecodeBuffer(ad).value[8..12]).Some?)
           && p.humidity.None? && p.waterLevel.None?
           && (p.batteryLevel.None? <==> |DecodeBuffer(ad).value| == 12)
         case JwUWater =>
           0.0 <= p.waterLevel.value <= 100.0 && p.temperature.None? && p.humidity.None? && p.batteryLevel.Some?
  {
    var buf := DecodeBuffer(ad).value;
    var t := ResolvedType(ad, deviceType).value;
    if t == JwUWater {
      MacStringShape(buf[0..6]);
    } else {
      MacStringShape(buf[2..8]);
    }
  }

  // ---------------------------------------------------------------------
  // encodeBLEData
  // ---------------------------------------------------------------------

  function DeviceTypeFromName(name: string): Option<DeviceType> {
    if name == "F525_GATEWAY" then Some(F525Gateway)
    else if name == "JHT_UP_39F5" then Some(JhtUp39F5)
    else if name == "WIFI_PT100_35F5" then Some(WifiPt10035F5)
    else if name == "JW_U_WATER" then Some(JwUWater)
    else None
  }

  /** The byte one MAC field writes: `parseInt(part, 16)` stored into a
      byte, where NaN stores 0. */
  function MacPartByte(part: string): byte {
    match ParseIntHex(part)
    case None => 0
    case Some(v) => ToUint8(v)
  }

  /** The six MAC bytes the encoder writes: fields of `mac || DEFAULT`
      split on ':'; a missing or empty field leaves its zero byte. */
  function MacBytes(mac: Option<string>): (bs: seq<byte>)
    ensures |bs| == 6
  {
    MacFieldBytes(Split(MacText(mac), ':'))
  }

  /** `mac || DEFAULT`. */
  function MacText(mac: Option<string>): string {
    if mac.Some? && mac.value != "" then mac.value else DefaultMac
  }

  function MacFieldBytes(parts: seq<string>): (bs: seq<byte>)
    ensures |bs| == 6
  {
    seq(6, i requires 0 <= i < 6 => if i < |parts| && parts[i] != "" then MacPartByte(parts[i]) else 0)
  }

  /** `buffer.writeUInt16BE(raw)` of an optional value, or the zero fill;
      `None` is the range error Node raises outside 0..65535. */
  function OptionalU16(value: Option<real>, toRaw: real -> int): Option<seq<byte>> {
    match value
    case None => Some([0, 0])
    case Some(v) =>
      var raw := toRaw(v);
      if 0 <= raw < 65536 then Some(U16BEBytes(raw)) else None
  }

  function BatteryByte(b: Option<int>): byte {
    match b
    case None => 0
    case Some(v) => ToUint8(v)
  }

  predicate InU16Range(value: Option<real>, toRaw: real -> int) {
    value.None? || 0 <= toRaw(value.value) < 65536
  }

  /** `encodeBLEData(typeName, data)`. */
  function EncodeBleData(codec: Float32Codec, typeName: string, d: SensorFields): (r: Result<seq<byte>, EncodeError>)
    ensures DeviceTypeFromName(typeName).None? <==> r == Failure(UnsupportedDeviceType(typeName))
    ensures r.Success? ==> |r.value| == MinLength(DeviceTypeFromName(typeName).value) + if DeviceTypeFromName(typeName) == Some(WifiPt10035F5) then 1 else 0
    ensures DeviceTypeFromName(typeName).Some? ==>
      var t := DeviceTypeFromName(typeName).value;
      (r.Success? <==>
        match t
        case F525Gateway => InU16Range(d.temperature, TemperatureToRaw) && InU16Range(d.humidity, PercentToRaw)
        case JhtUp39F5 => InU16Range(d.temperature, TemperatureToRaw) && InU16Range(d.humidity, PercentToRaw)
        case WifiPt10035F5 => true
        case JwUWater => InU16Range(d.waterLevel, PercentToRaw))
  {
    match DeviceTypeFromName(typeName)
    case None => Failure(UnsupportedDeviceType(typeName))
    case Some(t) =>
      var mac := MacBytes(d.mac);
      match t
      case WifiPt10035F5 =>
        var temp := if d.temperature.Some? then codec.encode(d.temperature.value) else [0, 0, 0, 0];
        Success(U16LEBytes(ManufacturerId35F5) + mac + temp + [BatteryByte(d.batteryLevel)])
      case JwUWater =>
        (match OptionalU16(d.waterLevel, PercentToRaw)
         case None => Failure(ValueOutOfRange)
         case Some(level) => Success(mac + level + [BatteryByte(d.batteryLevel)]))
      case _ =>
        var temp := OptionalU16(d.temperature, TemperatureToRaw);
        var hum := OptionalU16(d.humidity, PercentToRaw);
        if temp.None? || hum.None? then Failure(ValueOutOfRange)
        else Success(U16LEBytes(ManufacturerId(t)) + mac + temp.value + hum.value + [BatteryByte(d.batteryLevel)])
  }
}
