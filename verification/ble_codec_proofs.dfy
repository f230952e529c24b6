/** Properties relating the BLE encoder and decoder: the MAC text/bytes
    conversions are mutually inverse, encoding succeeds for in-range
    readings, and decoding an encoded reading returns it (MAC and battery
    exactly, scaled values within rounding). */
module BleCodecProofs {
  import opened Wrappers
  import opened Text
  import opened Bytes
  import opened Decimal
  import opened BleCodec

  // ---------------------------------------------------------------------
  // Hexadecimal pairs
  // ---------------------------------------------------------------------

  lemma HexPairValue(g: string)
    requires |g| == 2 && AllHexDigits(g)
    ensures HexNumber(g) == 16 * HexDigitValue(g[0]) + HexDigitValue(g[1])
  {
    assert g[..1][..0] == [];
    assert g[..1] == [g[0]];
  }

  lemma UpperKeepsHexValue(c: char)
    requires IsHexDigit(c)
    ensures IsUpperHexDigit(UpperChar(c)) && IsHexDigit(UpperChar(c))
    ensures HexDigitValue(UpperChar(c)) == HexDigitValue(c)
  {
  }

  lemma UpperHexDigitsEqual(c: char, d: char)
    requires IsUpperHexDigit(c) && IsUpperHexDigit(d) && HexDigitValue(c) == HexDigitValue(d)
    ensures c == d
  {
  }

  /** Rendering the value of a hex pair gives the pair in upper case. */
  lemma {:induction false} Hex2OfHexPair(g: string)
    requires |g| == 2 && AllHexDigits(g)
    ensures HexNumber(g) < 256
    ensures Hex2(HexNumber(g)) == Upper(g)
  {
    HexPairValue(g);
    var b: byte := HexNumber(g);
    var h := Hex2(b);
    Hex2Shape(b);
    HexPairValue(h);
    var u := Upper(g);
    UpperKeepsHexValue(g[0]);
    UpperKeepsHexValue(g[1]);
    UpperHexDigitsEqual(h[0], u[0]);
    UpperHexDigitsEqual(h[1], u[1]);
    assert h == u;
  }

  // ---------------------------------------------------------------------
  // MAC text and bytes
  // ---------------------------------------------------------------------

  /** The fields of a colon MAC are its six hex pairs, and the encoder
      writes their values. */
  lemma {:induction false} MacBytesOfColonMac(mac: string)
    requires IsColonMac(mac)
    ensures forall k | 0 <= k < 6 ::
      AllHexDigits(mac[3 * k..3 * k + 2]) && MacBytes(Some(mac))[k] == HexNumber(mac[3 * k..3 * k + 2])
  {
    assert MacText(Some(mac)) == mac;
    forall i | 0 <= i < |mac| ensures (mac[i] == ':') == (i % 3 == 2) {
    }
    SplitPairs(mac, ':', 6);
    var parts := Split(mac, ':');
    forall k | 0 <= k < 6
      ensures AllHexDigits(mac[3 * k..3 * k + 2]) && MacBytes(Some(mac))[k] == HexNumber(mac[3 * k..3 * k + 2])
    {
      var g := mac[3 * k..3 * k + 2];
      assert parts[k] == g;
      assert g[0] == mac[3 * k] && g[1] == mac[3 * k + 1];
      assert (3 * k) % 3 == 0 && (3 * k + 1) % 3 == 1;
      assert AllHexDigits(g);
      HexPairValue(g);
      ParseIntHexOfDigits(g);
      assert MacPartByte(g) == HexNumber(g);
    }
  }

  /** Encoding a colon MAC and rendering the bytes gives the MAC in upper case. */
  lemma {:induction false} MacTextRoundTrip(mac: string)
    requires IsColonMac(mac)
    ensures MacString(MacBytes(Some(mac))) == Upper(mac)
  {
    var bs := MacBytes(Some(mac));
    MacStringShape(bs);
    var r := MacString(bs);
    forall i | 0 <= i < 17 ensures r[i] == Upper(mac)[i] {
      MacTextChar(mac, i);
    }
  }

  /** One character of the round trip: separators stay, digits are
      rendered in upper case. */
  lemma MacTextChar(mac: string, i: nat)
    requires IsColonMac(mac) && i < 17
    ensures |MacString(MacBytes(Some(mac)))| == 17
    ensures MacString(MacBytes(Some(mac)))[i] == UpperChar(mac[i])
  {
    MacStringShape(MacBytes(Some(mac)));
    if i % 3 != 2 {
      MacTextDigit(mac, i / 3, i % 3);
      assert i == 3 * (i / 3) + i % 3;
    }
  }

  lemma MacTextDigit(mac: string, k: nat, j: nat)
    requires IsColonMac(mac) && k < 6 && j < 2
    ensures |MacString(MacBytes(Some(mac)))| == 17
    ensures MacString(MacBytes(Some(mac)))[3 * k + j] == UpperChar(mac[3 * k + j])
  {
    var bs := MacBytes(Some(mac));
    var r := MacString(bs);
    var g := mac[3 * k..3 * k + 2];
    MacGroup(bs, k);
    MacByteAt(mac, k);
    Hex2OfHexPair(g);
    assert r[3 * k..3 * k + 2] == Upper(g);
    PairChar(r, mac, k, j);
  }

  /** A pair that matches in upper case matches character by character. */
  lemma PairChar(r: string, mac: string, k: nat, j: nat)
    requires |r| == 17 && |mac| == 17 && k < 6 && j < 2
    requires r[3 * k..3 * k + 2] == Upper(mac[3 * k..3 * k + 2])
    ensures r[3 * k + j] == UpperChar(mac[3 * k + j])
  {
    assert r[3 * k + j] == r[3 * k..3 * k + 2][j];
    assert mac[3 * k + j] == mac[3 * k..3 * k + 2][j];
  }

  /** Byte `k` of an encoded colon MAC is the value of its `k`th pair. */
  lemma MacByteAt(mac: string, k: nat)
    requires IsColonMac(mac) && k < 6
    ensures AllHexDigits(mac[3 * k..3 * k + 2])
    ensures MacBytes(Some(mac))[k] == HexNumber(mac[3 * k..3 * k + 2])
  {
    MacBytesOfColonMac(mac);
  }

  /** Rendering six bytes and encoding the text gives the bytes back. */
  lemma {:induction false} MacBytesRoundTrip(bs: seq<byte>)
    requires |bs| == 6
    ensures MacBytes(Some(MacString(bs))) == bs
  {
    var mac := MacString(bs);
    MacStringShape(bs);
    MacBytesOfColonMac(mac);
    var out := MacBytes(Some(mac));
    forall k | 0 <= k < 6 ensures out[k] == bs[k] {
      MacGroup(bs, k);
      Hex2Shape(bs[k]);
    }
  }


  // ---------------------------------------------------------------------
  // Scaling
  // ---------------------------------------------------------------------

  lemma DeviceTypeNameRoundTrip(t: DeviceType)
    ensures DeviceTypeFromName(t.Name()) == Some(t)
  {
  }

  /** Scaling a temperature to 16 bits and back moves it by less than
      0.01, rounding included. */
  lemma TemperatureScaleRoundTrip(t: real)
    requires 0 <= TemperatureToRaw(t) < 65536
    ensures Abs(ToFixed2(TemperatureFromRaw(TemperatureToRaw(t))) - t) <= 0.01
  {
    var raw := TemperatureToRaw(t);
    var x := (t + 45.0) * 65535.0 / 175.0;
    assert x - 0.5 < raw as real <= x + 0.5;
    var back := TemperatureFromRaw(raw);
    assert back == raw as real * 175.0 / 65535.0 - 45.0;
    assert Abs(back - t) <= 0.0014;
  }

  lemma PercentScaleRoundTrip(p: real)
    requires 0 <= PercentToRaw(p) < 65536
    ensures Abs(ToFixed2(PercentFromRaw(PercentToRaw(p))) - p) <= 0.01
  {
    var raw := PercentToRaw(p);
    var x := p * 65535.0 / 100.0;
    assert x - 0.5 < raw as real <= x + 0.5;
    var back := PercentFromRaw(raw);
    assert back == raw as real * 100.0 / 65535.0;
    assert Abs(back - p) <= 0.001;
  }

  /** Temperatures in [-45, 130] and percentages in [0, 100] fit the
      16-bit fields, so encoding them succeeds. */
  lemma EncodeInRangeSucceeds(codec: Float32Codec, t: DeviceType, d: SensorFields)
    requires d.temperature.None? || -45.0 <= d.temperature.value <= 130.0
    requires d.humidity.None? || 0.0 <= d.humidity.value <= 100.0
    requires d.waterLevel.None? || 0.0 <= d.waterLevel.value <= 100.0
    ensures EncodeBleData(codec, t.Name(), d).Success?
  {
    DeviceTypeNameRoundTrip(t);
  }

  // ---------------------------------------------------------------------
  // Round trips
  // ---------------------------------------------------------------------

  /** The F525 / 39F5 buffer the encoder builds from in-range values. */
  lemma ComboEncoding(codec: Float32Codec, t: DeviceType, d: SensorFields)
    requires t == F525Gateway || t == JhtUp39F5
    requires d.temperature.Some? && d.humidity.Some?
    requires EncodeBleData(codec, t.Name(), d).Success?
    ensures 0 <= TemperatureToRaw(d.temperature.value) < 65536 && 0 <= PercentToRaw(d.humidity.value) < 65536
    ensures EncodeBleData(codec, t.Name(), d).value
      == U16LEBytes(ManufacturerId(t)) + MacBytes(d.mac) + U16BEBytes(TemperatureToRaw(d.temperature.value))
         + U16BEBytes(PercentToRaw(d.humidity.value)) + [BatteryByte(d.batteryLevel)]
  {
    DeviceTypeNameRoundTrip(t);
  }

  /** The F525 / 39F5 layout read back field by field. */
  lemma ComboDecoding(codec: Float32Codec, t: DeviceType, mac: seq<byte>, tempRaw: nat, humRaw: nat, battery: byte)
    requires t == F525Gateway || t == JhtUp39F5
    requires |mac| == 6 && tempRaw < 65536 && humRaw < 65536
    ensures var buf := U16LEBytes(ManufacturerId(t)) + mac + U16BEBytes(tempRaw) + U16BEBytes(humRaw) + [battery];
      && |buf| == 13
      && buf[0] as int + 256 * buf[1] as int == ManufacturerId(t)
      && ParseFormat(codec, t, buf)
         == Some(ParsedSensorData(Some(ToFixed2(TemperatureFromRaw(tempRaw))), Some(ToFixed2(PercentFromRaw(humRaw))), Some(battery), None, MacString(mac)))
  {
    var buf := U16LEBytes(ManufacturerId(t)) + mac + U16BEBytes(tempRaw) + U16BEBytes(humRaw) + [battery];
    assert buf[2..8] == mac;
    assert U16BE(buf, 8) == tempRaw;
    assert U16BE(buf, 10) == humRaw;
  }

  /** Manufacturer data with a known id is decoded in that id's layout. */
  lemma ParseByManufacturerId(codec: Float32Codec, ad: AdvertisingData, t: DeviceType)
    requires t != JwUWater
    requires ad.manufacturerData.Some? && |ad.manufacturerData.value| >= 2
    requires ad.manufacturerData.value[0] as int + 256 * ad.manufacturerData.value[1] as int == ManufacturerId(t)
    ensures IdentifyDeviceType(ad) == Some(t)
    ensures ParseBleData(codec, ad, None) == ParseFormat(codec, t, ad.manufacturerData.value)
  {
    IdentifyByManufacturerId(ad, t);
  }

  /** F525 and 39F5: the encoded buffer, presented as manufacturer data,
      identifies as the same family and decodes to the same MAC (upper
      case) and battery, and to temperature and humidity within 0.01. */
  lemma {:induction false} RoundTripCombo(codec: Float32Codec, t: DeviceType, d: SensorFields, ad: AdvertisingData)
    requires t == F525Gateway || t == JhtUp39F5
    requires d.temperature.Some? && d.humidity.Some? && d.mac.Some? && IsColonMac(d.mac.value)
    requires d.batteryLevel.Some? && 0 <= d.batteryLevel.value < 256
    requires EncodeBleData(codec, t.Name(), d).Success?
    requires ad.manufacturerData == Some(EncodeBleData(codec, t.Name(), d).value)
    ensures IdentifyDeviceType(ad) == Some(t)
    ensures var p := ParseBleData(codec, ad, None);
      && p.Some?
      && p.value.mac == Upper(d.mac.value)
      && p.value.batteryLevel == Some(d.batteryLevel.value)
      && p.value.temperature.Some? && Abs(p.value.temperature.value - d.temperature.value) <= 0.01
      && p.value.humidity.Some? && Abs(p.value.humidity.value - d.humidity.value) <= 0.01
  {
    ComboEncoding(codec, t, d);
    ComboFromLayout(codec, t, d, ad);
  }

  /** Advertising data carrying the F525 / 39F5 layout decodes to its fields. */
  lemma ComboParse(codec: Float32Codec, t: DeviceType, ad: AdvertisingData, mac: seq<byte>, tempRaw: nat, humRaw: nat, battery: byte)
    requires t == F525Gateway || t == JhtUp39F5
    requires |mac| == 6 && tempRaw < 65536 && humRaw < 65536
    requires ad.manufacturerData == Some(U16LEBytes(ManufacturerId(t)) + mac + U16BEBytes(tempRaw) + U16BEBytes(humRaw) + [BatteryByte(Some(battery))])
    ensures IdentifyDeviceType(ad) == Some(t)
    ensures ParseBleData(codec, ad, None)
      == Some(ParsedSensorData(Some(ToFixed2(TemperatureFromRaw(tempRaw))), Some(ToFixed2(PercentFromRaw(humRaw))), Some(battery), None, MacString(mac)))
  {
    assert BatteryByte(Some(battery)) == battery;
    ComboDecoding(codec, t, mac, tempRaw, humRaw, battery);
    ParseByManufacturerId(codec, ad, t);
  }

  /** The F525 / 39F5 round trip from the encoded layout. */
  lemma ComboFromLayout(codec: Float32Codec, t: DeviceType, d: SensorFields, ad: AdvertisingData)
    requires t == F525Gateway || t == JhtUp39F5
    requires d.temperature.Some? && d.humidity.Some? && d.mac.Some? && IsColonMac(d.mac.value)
    requires d.batteryLevel.Some? && 0 <= d.batteryLevel.value < 256
    requires 0 <= TemperatureToRaw(d.temperature.value) < 65536 && 0 <= PercentToRaw(d.humidity.value) < 65536
    requires ad.manufacturerData == Some(U16LEBytes(ManufacturerId(t)) + MacBytes(d.mac) + U16BEBytes(TemperatureToRaw(d.temperature.value))
         + U16BEBytes(PercentToRaw(d.humidity.value)) + [BatteryByte(d.batteryLevel)])
    ensures IdentifyDeviceType(ad) == Some(t)
    ensures var p := ParseBleData(codec, ad, None);
      && p.Some?
      && p.value.mac == Upper(d.mac.value)
      && p.value.batteryLevel == Some(d.batteryLevel.value)
      && p.value.temperature.Some? && Abs(p.value.temperature.value - d.temperature.value) <= 0.01
      && p.value.humidity.Some? && Abs(p.value.humidity.value - d.humidity.value) <= 0.01
  {
    var tempRaw := TemperatureToRaw(d.temperature.value);
    var humRaw := PercentToRaw(d.humidity.value);
    ComboParse(codec, t, ad, MacBytes(d.mac), tempRaw, humRaw, d.batteryLevel.value);
    MacTextRoundTrip(d.mac.value);
    TemperatureScaleRoundTrip(d.temperature.value);
    PercentScaleRoundTrip(d.humidity.value);
  }

  /** The PT100 buffer the encoder builds for a present temperature. */
  lemma ProbeEncoding(codec: Float32Codec, d: SensorFields)
    requires d.temperature.Some?
    ensures EncodeBleData(codec, WifiPt10035F5.Name(), d)
      == Success(U16LEBytes(ManufacturerId35F5) + MacBytes(d.mac) + codec.encode(d.temperature.value) + [BatteryByte(d.batteryLevel)])
  {
    DeviceTypeNameRoundTrip(WifiPt10035F5);
  }

  /** The PT100 layout read back field by field. */
  lemma ProbeDecoding(codec: Float32Codec, mac: seq<byte>, word: Word4, battery: byte)
    requires |mac| == 6
    ensures var buf := U16LEBytes(ManufacturerId35F5) + mac + word + [battery];
      && |buf| == 13
      && buf[0] as int + 256 * buf[1] as int == ManufacturerId(WifiPt10035F5)
      && ParseFormat(codec, WifiPt10035F5, buf)
         == Some(ParsedSensorData(
              if codec.decode(word).Some? then Some(ToFixed2(codec.decode(word).value)) else None,
              None, Some(battery), None, MacString(mac)))
  {
    var buf := U16LEBytes(ManufacturerId35F5) + mac + word + [battery];
    assert buf[2..8] == mac;
    assert buf[8..12] == word;
  }

  /** PT100: with a binary32 conversion accurate to `eps` at the encoded
      temperature, decoding returns it within `eps + 0.005`, with the same
      MAC (upper case) and battery; the family is identified from the
      buffer. */
  lemma {:induction false} RoundTripProbe(codec: Float32Codec, d: SensorFields, ad: AdvertisingData, eps: real)
    requires d.temperature.Some? && d.mac.Some? && IsColonMac(d.mac.value)
    requires d.batteryLevel.Some? && 0 <= d.batteryLevel.value < 256
    requires codec.decode(codec.encode(d.temperature.value)).Some?
    requires Abs(codec.decode(codec.encode(d.temperature.value)).value - d.temperature.value) <= eps
    requires EncodeBleData(codec, WifiPt10035F5.Name(), d).Success?
    requires ad.manufacturerData == Some(EncodeBleData(codec, WifiPt10035F5.Name(), d).value)
    ensures IdentifyDeviceType(ad) == Some(WifiPt10035F5)
    ensures var p := ParseBleData(codec, ad, None);
      && p.Some?
      && p.value.mac == Upper(d.mac.value)
      && p.value.batteryLevel == Some(d.batteryLevel.value)
      && p.value.temperature.Some? && Abs(p.value.temperature.value - d.temperature.value) <= eps + 0.005
      && p.value.humidity.None?
  {
    ProbeEncoding(codec, d);
    ProbeDecoding(codec, MacBytes(d.mac), codec.encode(d.temperature.value), BatteryByte(d.batteryLevel));
    ParseByManufacturerId(codec, ad, WifiPt10035F5);
    MacTextRoundTrip(d.mac.value);
  }

  /** The JW-U buffer the encoder builds from an in-range level. */
  lemma WaterEncoding(codec: Float32Codec, d: SensorFields)
    requires d.waterLevel.Some?
    requires EncodeBleData(codec, JwUWater.Name(), d).Success?
    ensures 0 <= PercentToRaw(d.waterLevel.value) < 65536
    ensures EncodeBleData(codec, JwUWater.Name(), d).value
      == MacBytes(d.mac) + U16BEBytes(PercentToRaw(d.waterLevel.value)) + [BatteryByte(d.batteryLevel)]
  {
    DeviceTypeNameRoundTrip(JwUWater);
  }

  /** The JW-U layout read back field by field. */
  lemma WaterDecoding(mac: seq<byte>, levelRaw: nat, battery: byte)
    requires |mac| == 6 && levelRaw < 65536
    ensures var buf := mac + U16BEBytes(levelRaw) + [battery];
      ParseJwuFormat(buf) == Some(ParsedSensorData(None, None, Some(battery), Some(ToFixed2(PercentFromRaw(levelRaw))), MacString(mac)))
  {
    var buf := mac + U16BEBytes(levelRaw) + [battery];
    assert buf[0..6] == mac;
    assert U16BE(buf, 6) == levelRaw;
  }

  /** JW-U: the encoded buffer, presented as service data under the JW-U
      UUID with no manufacturer data, identifies as JW-U and decodes to the
      same MAC (upper case) and battery, and to the level within 0.01. */
  lemma {:induction false} RoundTripWater(codec: Float32Codec, d: SensorFields, ad: AdvertisingData)
    requires d.waterLevel.Some? && d.mac.Some? && IsColonMac(d.mac.value)
    requires d.batteryLevel.Some? && 0 <= d.batteryLevel.value < 256
    requires EncodeBleData(codec, JwUWater.Name(), d).Success?
    requires ad.manufacturerData.None? && ad.serviceData.Some?
    requires ad.serviceData.value == ad.serviceData.value[JwuServiceUuid := EncodeBleData(codec, JwUWater.Name(), d).value]
    ensures IdentifyDeviceType(ad) == Some(JwUWater)
    ensures var p := ParseBleData(codec, ad, None);
      && p.Some?
      && p.value.mac == Upper(d.mac.value)
      && p.value.batteryLevel == Some(d.batteryLevel.value)
      && p.value.waterLevel.Some? && Abs(p.value.waterLevel.value - d.waterLevel.value) <= 0.01
      && p.value.temperature.None? && p.value.humidity.None?
  {
    WaterEncoding(codec, d);
    var buf := EncodeBleData(codec, JwUWater.Name(), d).value;
    WaterDecoding(MacBytes(d.mac), PercentToRaw(d.waterLevel.value), BatteryByte(d.batteryLevel));
    assert JwuServiceUuid in ad.serviceData.value && ad.serviceData.value[JwuServiceUuid] == buf;
    assert DecodeBuffer(ad) == Some(buf);
    MacTextRoundTrip(d.mac.value);
    PercentScaleRoundTrip(d.waterLevel.value);
  }

  // ---------------------------------------------------------------------
  // Worked readings
  // ---------------------------------------------------------------------

  /** A gateway frame with raw temperature 26214, raw humidity 39321 and
      battery 85 reads 25.00 °C, 60.00 % and 85. */
  lemma GatewayReading(data: seq<byte>)
    requires |data| == 13 && U16BE(data, 8) == 26214 && U16BE(data, 10) == 39321 && data[12] == 85
    ensures ParseF525Format(data).Some?
    ensures ParseF525Format(data).value.temperature == Some(25.0)
    ensures ParseF525Format(data).value.humidity == Some(60.0)
    ensures ParseF525Format(data).value.batteryLevel == Some(85)
  {
    var x := TemperatureFromRaw(26214);
    assert 2500.0 <= x * 100.0 + 0.5 < 2501.0;
    assert (x * 100.0 + 0.5).Floor == 2500;
    assert PercentFromRaw(39321) == 60.0;
    ToFixed2OfCents(6000);
  }

  /** A probe frame whose binary32 word denotes -15.5 reads -15.50 °C with
      no humidity. */
  lemma ProbeReading(codec: Float32Codec, data: seq<byte>)
    requires |data| >= 12 && codec.decode(data[8..12]) == Some(-15.5)
    ensures Parse35F5Format(codec, data).Some?
    ensures Parse35F5Format(codec, data).value.temperature == Some(-15.5)
    ensures Parse35F5Format(codec, data).value.humidity.None?
  {
    ToFixed2OfCents(-1550);
  }
}
