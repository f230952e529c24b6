/** The web client's parser of advertising data pasted as a hexadecimal
    string (`utils/bleParser.ts`): the string is normalised, the family's
    two-byte pattern is searched for, and the characters after its first
    occurrence are read as hexadecimal fields. */
module HexParser {
  import opened Wrappers
  import opened Text
  import opened Bytes
  import opened Decimal
  import BleCodec

  /** The `type` argument: the three known patterns and 'UNKNOWN'. */
  datatype FrameType = TypeF525 | Type39F5 | Type35F5 | TypeUnknown

  function Pattern(t: FrameType): string
    requires t != TypeUnknown
  {
    match t
    case TypeF525 => "F525"
    case Type39F5 => "39F5"
    case Type35F5 => "35F5"
  }

  // ---------------------------------------------------------------------
  // Normalisation
  // ---------------------------------------------------------------------

  /** The characters the class `[,\s"\[\]]` removes. */
  predicate IsFormatting(c: char) {
    c == ',' || IsJsSpace(c) || c == '"' || c == '[' || c == ']'
  }

  /** `replace(/^0x/i, '')`: one leading `0x` or `0X`, if present. */
  function StripPrefix(s: string): (r: string)
    ensures r == s || (|s| >= 2 && s[0] == '0' && (s[1] == 'x' || s[1] == 'X') && r == s[2..])
    ensures |s| >= 2 && s[0] == '0' && (s[1] == 'x' || s[1] == 'X') ==> |r| == |s| - 2
  {
    if |s| >= 2 && s[0] == '0' && (s[1] == 'x' || s[1] == 'X') then s[2..] else s
  }

  /** `replace(/[,\s"\[\]]/g, '')`: every formatting character removed, the
      others kept in order. */
  function RemoveFormatting(s: string): (r: string)
    ensures |r| <= |s|
    ensures forall i | 0 <= i < |r| :: !IsFormatting(r[i])
    ensures forall i | 0 <= i < |r| :: r[i] in s
  {
    if s == [] then []
    else (if IsFormatting(s[0]) then [] else [s[0]]) + RemoveFormatting(s[1..])
  }

  lemma {:induction false} RemoveFormattingAppend(a: string, b: string)
    ensures RemoveFormatting(a + b) == RemoveFormatting(a) + RemoveFormatting(b)
  {
    if a != [] {
      var head := if IsFormatting(a[0]) then [] else [a[0]];
      assert (a + b)[0] == a[0];
      assert (a + b)[1..] == a[1..] + b;
      assert RemoveFormatting(a + b) == head + RemoveFormatting(a[1..] + b);
      RemoveFormattingAppend(a[1..], b);
      assert RemoveFormatting(a) == head + RemoveFormatting(a[1..]);
    } else {
      assert a + b == b;
    }
  }

  /** A string with no formatting character passes through unchanged. */
  lemma {:induction false} RemoveFormattingIdentity(s: string)
    requires forall i | 0 <= i < |s| :: !IsFormatting(s[i])
    ensures RemoveFormatting(s) == s
  {
    if s != [] {
      RemoveFormattingIdentity(s[1..]);
      assert [s[0]] + s[1..] == s;
    }
  }

  /** `rawData.replace(/^0x/i, '').replace(/[,\s"\[\]]/g, '').toUpperCase()`. */
  function Normalize(raw: string): (hex: string)
    ensures |hex| <= |raw|
  {
    Upper(RemoveFormatting(StripPrefix(raw)))
  }

  /** No formatting character and no lower-case ASCII letter survive
      normalisation. */
  lemma NormalizeClean(raw: string)
    ensures forall i | 0 <= i < |Normalize(raw)| :: !IsFormatting(Normalize(raw)[i]) && !('a' <= Normalize(raw)[i] <= 'z')
  {
    var stripped := RemoveFormatting(StripPrefix(raw));
    assert forall i | 0 <= i < |Normalize(raw)| :: Normalize(raw)[i] == UpperChar(stripped[i]);
  }

  /** A string without formatting characters, lower-case letters or a
      leading `0x`/`0X` is already normalised. */
  lemma NormalizeFixed(s: string)
    requires forall i | 0 <= i < |s| :: !IsFormatting(s[i]) && !('a' <= s[i] <= 'z')
    requires !(|s| >= 2 && s[0] == '0' && (s[1] == 'x' || s[1] == 'X'))
    ensures Normalize(s) == s
  {
    RemoveFormattingIdentity(s);
  }

  /** A string of hexadecimal digits normalises to its upper-case form. */
  lemma NormalizeHexDigits(s: string)
    requires AllHexDigits(s)
    ensures Normalize(s) == Upper(s)
  {
    assert StripPrefix(s) == s by {
      if |s| >= 2 { assert IsHexDigit(s[1]); }
    }
    RemoveFormattingIdentity(s);
  }

  /** A string of formatting characters is removed entirely. */
  lemma {:induction false} RemoveFormattingAll(s: string)
    requires forall i | 0 <= i < |s| :: IsFormatting(s[i])
    ensures RemoveFormatting(s) == []
  {
    if s != [] {
      RemoveFormattingAll(s[1..]);
    }
  }

  lemma HexDigitsUnformatted(s: string)
    requires AllHexDigits(s)
    ensures RemoveFormatting(s) == s
  {
    assert forall i | 0 <= i < |s| :: IsHexDigit(s[i]) && !IsFormatting(s[i]);
    RemoveFormattingIdentity(s);
  }

  /** Separators between two groups of digits and one leading `0x` do not
      change the result: only the digits remain, in upper case. */
  lemma NormalizeGroups(a: string, b: string, sep: string)
    requires AllHexDigits(a) && AllHexDigits(b)
    requires forall i | 0 <= i < |sep| :: IsFormatting(sep[i])
    ensures Normalize("0x" + a + sep + b) == Upper(a + b)
  {
    var s := "0x" + a + sep + b;
    assert StripPrefix(s) == a + sep + b by {
      assert s[0] == '0' && s[1] == 'x';
      assert s[2..] == a + sep + b;
    }
    assert RemoveFormatting(a + sep + b) == a + b by {
      RemoveFormattingAppend(a + sep, b);
      RemoveFormattingAppend(a, sep);
      HexDigitsUnformatted(a);
      HexDigitsUnformatted(b);
      RemoveFormattingAll(sep);
      assert a + [] == a;
    }
  }

  // ---------------------------------------------------------------------
  // Fields
  // ---------------------------------------------------------------------

  /** `ieee754(hex)`: the value parsed with `parseInt(hex, 16)`, stored with
      `setUint32` (ToUint32, so NaN stores 0) and read back as a big-endian
      binary32. A zero value returns 0: `int === 0` short-circuits, and the
      all-zero word is +0 (IEEE 754-2008, section 3.4). `None` is a word
      that denotes NaN. */
  function Ieee754(codec: BleCodec.Float32Codec, s: string): (r: Option<real>)
    ensures ParseIntHex(s).None? || ParseIntHex(s) == Some(0) ==> r == Some(0.0)
    ensures r != Some(0.0) ==> ParseIntHex(s).Some? && ToUint32(ParseIntHex(s).value) != 0
    ensures r.None? ==> codec.decode(U32BEBytes(ToUint32(ParseIntHex(s).value))).None?
  {
    var word := ToUint32(ParseIntHex(s).GetOr(0));
    if word == 0 then Some(0.0) else codec.decode(U32BEBytes(word))
  }

  /** Eight hexadecimal digits are the big-endian word they spell. */
  lemma Ieee754OfDigits(codec: BleCodec.Float32Codec, s: string)
    requires |s| == 8 && AllHexDigits(s)
    ensures HexNumber(s) < Two32
    ensures Ieee754(codec, s) == if HexNumber(s) == 0 then Some(0.0) else codec.decode(U32BEBytes(HexNumber(s)))
  {
    assert Pow16(8) == Two32;
    ParseIntHexOfDigits(s);
  }

  /** A temperature field: `(hex2dec(f) / 65535) * 175 - 45`; `None` is NaN. */
  function TemperatureField(value: Option<int>): Option<real> {
    match value
    case None => None
    case Some(d) => Some(BleCodec.TemperatureFromRaw(d))
  }

  /** A humidity field: `(hex2dec(f) / 65535) * 100`; `None` is NaN. */
  function HumidityField(value: Option<int>): Option<real> {
    match value
    case None => None
    case Some(d) => Some(BleCodec.PercentFromRaw(d))
  }

  /** `v ? parseFloat(v.toFixed(2)) : undefined`: 0 and NaN are falsy. */
  function Reported(v: Option<real>): (r: Option<real>)
    ensures r.Some? <==> v.Some? && v.value != 0.0
    ensures r.Some? ==> Abs(r.value - v.value) <= 0.005
  {
    if v.Some? && v.value != 0.0 then Some(ToFixed2(v.value)) else None
  }

  // ---------------------------------------------------------------------
  // parseBleData
  // ---------------------------------------------------------------------

  datatype HexReading = HexReading(temperature: Option<real>, humidity: Option<real>)

  /** The integer a field converts to: `hex2dec`, that is `parseInt(f, 16)`,
      as written; with `checked`, hexadecimal digits only. */
  function FieldValue(f: string, checked: bool): Option<int> {
    if checked then HexDigitsValue(f) else ParseIntHex(f)
  }

  /** The twelve characters from the first occurrence of the pattern, when
      that many remain. */
  function FrameAt(hex: string, t: FrameType): (frame: Option<string>)
    requires t != TypeUnknown
    ensures frame.Some? ==> |frame.value| == 12
  {
    var idx := IndexOf(hex, Pattern(t));
    if idx == -1 || |hex| < idx + 12 then None else Some(hex[idx..idx + 12])
  }

  /** A gateway or JHT-UP reading: a temperature and a humidity field. */
  function FieldReading(tf: string, hf: string, checked: bool): HexReading {
    HexReading(
      Reported(TemperatureField(FieldValue(tf, checked))),
      Reported(HumidityField(FieldValue(hf, checked))))
  }

  /** A probe reading: one binary32 word, no humidity. */
  function ProbeReading(codec: BleCodec.Float32Codec, word: string): HexReading {
    HexReading(Reported(Ieee754(codec, word)), None)
  }

  /** The reading of the twelve characters that start with the pattern. */
  function ReadingOf(codec: BleCodec.Float32Codec, frame: string, t: FrameType, checked: bool): HexReading
    requires t != TypeUnknown && |frame| == 12
  {
    if t == Type35F5 then ProbeReading(codec, frame[4..12])
    else FieldReading(frame[4..8], frame[8..12], checked)
  }

  /** The search and length test on the normalised string, shared by both
      field conversions. */
  function ParseNormalized(codec: BleCodec.Float32Codec, hex: string, t: FrameType, checked: bool): (r: HexReading)
    ensures t == TypeUnknown ==> r == HexReading(None, None)
    ensures t == Type35F5 ==> r.humidity.None?
  {
    if t == TypeUnknown then HexReading(None, None)
    else match FrameAt(hex, t)
      case None => HexReading(None, None)
      case Some(frame) => ReadingOf(codec, frame, t, checked)
  }

  /** `parseBleData(rawData, type)`, with `hex2dec` as `parseInt(f, 16)`. */
  function ParseHexData(codec: BleCodec.Float32Codec, raw: string, t: FrameType): HexReading {
    ParseNormalized(codec, Normalize(raw), t, false)
  }

  /** The frame starts at the FIRST occurrence of the pattern, provided
      twelve characters remain from it; otherwise there is none. */
  lemma FirstOccurrenceFrame(hex: string, t: FrameType, i: nat)
    requires t != TypeUnknown
    requires OccursAt(hex, Pattern(t), i)
    requires forall j | 0 <= j < i :: !OccursAt(hex, Pattern(t), j)
    ensures FrameAt(hex, t) == if i + 12 <= |hex| then Some(hex[i..i + 12]) else None
  {
    IndexOfFirst(hex, Pattern(t), i);
  }

  /** The fields are read at the first occurrence of the pattern, provided
      twelve characters remain from it; otherwise nothing is reported. */
  lemma FirstOccurrenceRead(codec: BleCodec.Float32Codec, hex: string, t: FrameType, i: nat, checked: bool)
    requires t != TypeUnknown
    requires OccursAt(hex, Pattern(t), i)
    requires forall j | 0 <= j < i :: !OccursAt(hex, Pattern(t), j)
    ensures i + 12 <= |hex| ==> ParseNormalized(codec, hex, t, checked) == ReadingOf(codec, hex[i..i + 12], t, checked)
    ensures i + 12 > |hex| ==> ParseNormalized(codec, hex, t, checked) == HexReading(None, None)
  {
    FirstOccurrenceFrame(hex, t, i);
  }

  /** Without the pattern nothing is reported. */
  lemma MissingPatternReportsNothing(codec: BleCodec.Float32Codec, hex: string, t: FrameType, checked: bool)
    requires t != TypeUnknown
    requires forall j | 0 <= j <= |hex| :: !OccursAt(hex, Pattern(t), j)
    ensures ParseNormalized(codec, hex, t, checked) == HexReading(None, None)
  {
    assert FrameAt(hex, t).None?;
  }

  lemma HexZeros()
    ensures AllHexDigits("0000") && HexNumber("0000") == 0
  {
    assert "0000"[..3] == "000" && "000"[..2] == "00" && "00"[..1] == "0" && "0"[..0] == "";
  }

  /** A humidity field "0000" is computed as 0, which is falsy, so the
      humidity is reported as undefined. */
  lemma ZeroHumidityUnreported(codec: BleCodec.Float32Codec, frame: string, t: FrameType, checked: bool)
    requires t == TypeF525 || t == Type39F5
    requires |frame| == 12 && frame[8..12] == "0000"
    ensures ReadingOf(codec, frame, t, checked).humidity.None?
  {
    ZeroField(checked);
  }

  /** Both field conversions read "0000" as 0. */
  lemma ZeroField(checked: bool)
    ensures FieldValue("0000", checked) == Some(0)
  {
    HexZeros();
    ParseIntHexOfDigits("0000");
  }

  /** A probe frame whose eight-character word has value zero (such as
      "00000000") reports nothing. */
  lemma ZeroProbeWordUnreported(codec: BleCodec.Float32Codec, frame: string)
    requires |frame| == 12 && ParseIntHex(frame[4..12]) == Some(0)
    ensures ReadingOf(codec, frame, Type35F5, false) == HexReading(None, None)
  {
  }

  /** A probe frame holding the quiet NaN word "7FC00000" reports nothing:
      NaN is falsy in the final ternary. */
  lemma NaNProbeWordUnreported(codec: BleCodec.Float32Codec, frame: string)
    requires codec.decode([0x7F, 0xC0, 0x00, 0x00]).None?
    requires |frame| == 12 && frame[4..12] == "7FC00000"
    ensures ReadingOf(codec, frame, Type35F5, false) == HexReading(None, None)
  {
    NaNWord();
    ParseIntHexOfDigits("7FC00000");
    assert ToUint32(0x7FC00000) == 0x7FC00000;
    NaNWordBytes();
    assert Ieee754(codec, frame[4..12]).None?;
  }

  lemma NaNWordBytes()
    ensures U32BEBytes(0x7FC00000) == [0x7F, 0xC0, 0x00, 0x00]
  {
    assert 0x7FC00000 / 256 == 0x7FC000 && 0x7FC000 / 256 == 0x7FC0;
  }

  lemma NaNWord()
    ensures AllHexDigits("7FC00000") && HexNumber("7FC00000") == 0x7FC00000
  {
    NaNWordHigh();
    assert "7FC0" + ['0'] == "7FC00" && "7FC00" + ['0'] == "7FC000";
    assert "7FC000" + ['0'] == "7FC0000" && "7FC0000" + ['0'] == "7FC00000";
    HexStep("7FC0", '0', 0x7FC0);
    HexStep("7FC00", '0', 0x7FC00);
    HexStep("7FC000", '0', 0x7FC000);
    HexStep("7FC0000", '0', 0x7FC0000);
  }

  lemma NaNWordHigh()
    ensures AllHexDigits("7FC0") && HexNumber("7FC0") == 0x7FC0
  {
    assert "" + ['7'] == "7" && "7" + ['F'] == "7F" && "7F" + ['C'] == "7FC" && "7FC" + ['0'] == "7FC0";
    HexStep("", '7', 0);
    HexStep("7", 'F', 0x7);
    HexStep("7F", 'C', 0x7F);
    HexStep("7FC", '0', 0x7FC);
  }

  /** One more digit multiplies the value by 16 and adds the digit. */
  lemma HexStep(ds: string, c: char, v: nat)
    requires AllHexDigits(ds) && IsHexDigit(c) && HexNumber(ds) == v
    ensures AllHexDigits(ds + [c]) && HexNumber(ds + [c]) == 16 * v + HexDigitValue(c)
  {
    assert (ds + [c])[..|ds|] == ds;
  }

  lemma Pow16Four()
    ensures Pow16(4) == 65536
  {
    assert Pow16(2) == 256;
  }

  /** A frame cut from a string of hexadecimal digits is one too. */
  lemma FrameOfDigits(hex: string, t: FrameType)
    requires t != TypeUnknown && AllHexDigits(hex)
    ensures FrameAt(hex, t).Some? ==> AllHexDigits(FrameAt(hex, t).value)
  {
    var idx := IndexOf(hex, Pattern(t));
    if idx >= 0 && idx + 12 <= |hex| {
      HexDigitsSlice(hex, idx, idx + 12);
    }
  }

  /** When the normalised string holds only hexadecimal digits, reported
      gateway and JHT-UP values lie in [-45, 130] and [0, 100]. */
  lemma HexDigitsInRange(codec: BleCodec.Float32Codec, hex: string, t: FrameType)
    requires t == TypeF525 || t == Type39F5
    requires AllHexDigits(hex)
    ensures var r := ParseNormalized(codec, hex, t, false);
      && (r.temperature.Some? ==> -45.0 <= r.temperature.value <= 130.0)
      && (r.humidity.Some? ==> 0.0 <= r.humidity.value <= 100.0)
  {
    FrameOfDigits(hex, t);
    match FrameAt(hex, t)
    case None =>
    case Some(frame) => ReadingInRange(codec, frame, t, false);
  }

  lemma ReadingInRange(codec: BleCodec.Float32Codec, frame: string, t: FrameType, checked: bool)
    requires t == TypeF525 || t == Type39F5
    requires |frame| == 12 && (checked || AllHexDigits(frame))
    ensures var r := ReadingOf(codec, frame, t, checked);
      && (r.temperature.Some? ==> -45.0 <= r.temperature.value <= 130.0)
      && (r.humidity.Some? ==> 0.0 <= r.humidity.value <= 100.0)
  {
    var tf, hf := frame[4..8], frame[8..12];
    if !checked {
      HexDigitsSlice(frame, 4, 8);
      HexDigitsSlice(frame, 8, 12);
    }
    assert ReadingOf(codec, frame, t, checked) == FieldReading(tf, hf, checked);
    FieldReadingInRange(tf, hf, checked);
  }

  lemma FieldReadingInRange(tf: string, hf: string, checked: bool)
    requires |tf| == 4 && |hf| == 4
    requires checked || (AllHexDigits(tf) && AllHexDigits(hf))
    ensures var r := FieldReading(tf, hf, checked);
      && (r.temperature.Some? ==> -45.0 <= r.temperature.value <= 130.0)
      && (r.humidity.Some? ==> 0.0 <= r.humidity.value <= 100.0)
  {
    FieldInRange(tf, checked);
    FieldInRange(hf, checked);
  }

  /** A four-character field converts to a temperature in [-45, 130] and a
      humidity in [0, 100] whenever its value lies in 0..65535. */
  lemma FieldInRange(f: string, checked: bool)
    requires |f| == 4
    requires AllHexDigits(f) || checked
    ensures var v := FieldValue(f, checked);
      && (Reported(TemperatureField(v)).Some? ==> -45.0 <= Reported(TemperatureField(v)).value <= 130.0)
      && (Reported(HumidityField(v)).Some? ==> 0.0 <= Reported(HumidityField(v)).value <= 100.0)
  {
    var v := FieldValue(f, checked);
    if !checked {
      ParseIntHexOfDigits(f);
    }
    if v.Some? {
      Pow16Four();
      assert 0 <= v.value < 65536;
      BleCodec.TemperatureRange(v.value);
      BleCodec.PercentRange(v.value);
    }
  }

  // ---------------------------------------------------------------------
  // Fields restricted to hexadecimal digits
  // ---------------------------------------------------------------------

  /** The field conversion the range claim assumes: a non-empty string of
      hexadecimal digits only, else NaN. */
  function HexDigitsValue(s: string): (r: Option<int>)
    ensures r.Some? ==> AllHexDigits(s) && 0 <= r.value < Pow16(|s|)
    ensures AllHexDigits(s) && |s| > 0 ==> r == ParseIntHex(s)
  {
    if |s| > 0 && AllHexDigits(s) then
      ParseIntHexOfDigits(s);
      Some(HexNumber(s))
    else None
  }

  /** `parseBleData` with fields that must be hexadecimal digits. */
  function ParseHexDataChecked(codec: BleCodec.Float32Codec, raw: string, t: FrameType): HexReading {
    ParseNormalized(codec, Normalize(raw), t, true)
  }

  /** With digit-only fields the ranges hold for every normalised string. */
  lemma CheckedInRange(codec: BleCodec.Float32Codec, hex: string, t: FrameType)
    requires t == TypeF525 || t == Type39F5
    ensures var r := ParseNormalized(codec, hex, t, true);
      && (r.temperature.Some? ==> -45.0 <= r.temperature.value <= 130.0)
      && (r.humidity.Some? ==> 0.0 <= r.humidity.value <= 100.0)
  {
    match FrameAt(hex, t)
    case None =>
    case Some(frame) => ReadingInRange(codec, frame, t, true);
  }

  /** On digit-only input the restricted parser agrees with the original. */
  lemma CheckedAgreesOnHexDigits(codec: BleCodec.Float32Codec, hex: string, t: FrameType)
    requires AllHexDigits(hex)
    ensures ParseNormalized(codec, hex, t, true) == ParseNormalized(codec, hex, t, false)
  {
    if t != TypeUnknown {
      FrameOfDigits(hex, t);
      match FrameAt(hex, t)
      case None =>
      case Some(frame) => ReadingAgrees(codec, frame, t);
    }
  }

  lemma ReadingAgrees(codec: BleCodec.Float32Codec, frame: string, t: FrameType)
    requires t != TypeUnknown && |frame| == 12 && AllHexDigits(frame)
    ensures ReadingOf(codec, frame, t, true) == ReadingOf(codec, frame, t, false)
  {
    if t != Type35F5 {
      var tf := frame[4..8];
      var hf := frame[8..12];
      HexDigitsSlice(frame, 4, 8);
      HexDigitsSlice(frame, 8, 12);
      assert FieldValue(tf, true) == FieldValue(tf, false);
      assert FieldValue(hf, true) == FieldValue(hf, false);
    }
  }

  // ---------------------------------------------------------------------
  // Worked frames
  // ---------------------------------------------------------------------

  /** A 12-character frame without formatting characters or lower-case
      letters that starts with the pattern passes normalisation unchanged
      and is read from position 0. */
  lemma ReadFromStart(codec: BleCodec.Float32Codec, hex: string, t: FrameType)
    requires t != TypeUnknown && |hex| == 12 && hex[..4] == Pattern(t)
    requires forall i | 0 <= i < 12 :: !IsFormatting(hex[i]) && !('a' <= hex[i] <= 'z')
    ensures ParseHexData(codec, hex, t) == ReadingOf(codec, hex, t, false)
  {
    assert hex[0] == Pattern(t)[0];
    NormalizeFixed(hex);
    StartFrame(hex, t);
    assert ParseHexData(codec, hex, t) == ParseNormalized(codec, hex, t, false);
  }

  lemma StartFrame(hex: string, t: FrameType)
    requires t != TypeUnknown && |hex| == 12 && hex[..4] == Pattern(t)
    ensures FrameAt(hex, t) == Some(hex)
  {
    assert OccursAt(hex, Pattern(t), 0);
    FirstOccurrenceFrame(hex, t, 0);
    assert hex[0..12] == hex;
  }

  /** The gateway and JHT-UP reading from the two field values. */
  lemma ReadingOfFields(codec: BleCodec.Float32Codec, frame: string, t: FrameType, tv: int, hv: int)
    requires t == TypeF525 || t == Type39F5
    requires |frame| == 12
    requires FieldValue(frame[4..8], false) == Some(tv)
    requires FieldValue(frame[8..12], false) == Some(hv)
    ensures ReadingOf(codec, frame, t, false)
      == HexReading(Reported(Some(BleCodec.TemperatureFromRaw(tv))), Reported(Some(BleCodec.PercentFromRaw(hv))))
  {
  }

  lemma FieldOfDigits(f: string)
    requires AllHexDigits(f) && |f| > 0
    ensures FieldValue(f, false) == Some(HexNumber(f))
  {
    ParseIntHexOfDigits(f);
  }

  /** `parseInt` accepts a sign, so a field such as "-FFF" reads as -4095
      and the gateway frame "F525-FFF0000" reports a temperature below -45
      (and, its humidity being 0, no humidity). */
  lemma SignedFieldBelowRange(codec: BleCodec.Float32Codec, raw: string)
    requires raw == "F525-FFF0000"
    ensures var r := ParseHexData(codec, raw, TypeF525);
      r.temperature.Some? && r.temperature.value < -45.0 && r.humidity.None?
  {
    SignedFrameFields(codec, raw);
    ReadingOfFields(codec, raw, TypeF525, -4095, 0);
    assert BleCodec.TemperatureFromRaw(-4095) < -55.9;
  }

  lemma SignedFrameFields(codec: BleCodec.Float32Codec, raw: string)
    requires raw == "F525-FFF0000"
    ensures |raw| == 12
    ensures ParseHexData(codec, raw, TypeF525) == ReadingOf(codec, raw, TypeF525, false)
    ensures FieldValue(raw[4..8], false) == Some(-4095) && FieldValue(raw[8..12], false) == Some(0)
  {
    NormalizeFixed(raw);
    assert raw[..4] == "F525";
    ReadFromStart(codec, raw, TypeF525);
    SignedFrameValues(raw);
  }

  lemma SignedFrameValues(raw: string)
    requires raw == "F525-FFF0000"
    ensures FieldValue(raw[4..8], false) == Some(-4095) && FieldValue(raw[8..12], false) == Some(0)
  {
    assert raw[4..8] == "-FFF";
    assert raw[8..12] == "0000";
    SignedFieldValue();
    HexZeros();
    FieldOfDigits("0000");
  }

  lemma SignedFieldValue()
    ensures ParseIntHex("-FFF") == Some(-4095)
  {
    SignedFieldBody();
    HexRunFFF();
    assert "FFF"[..3] == "FFF";
    HexNumberFFF();
  }

  lemma SignedFieldBody()
    ensures IsNegative("-FFF") && HexBody("-FFF") == "FFF"
  {
    var tf := "-FFF";
    assert !IsJsSpace(tf[0]);
    assert SkipSpaces(tf) == tf;
    assert tf[1..] == "FFF";
  }

  lemma HexRunFFF()
    ensures HexRunLength("FFF") == 3
  {
    assert "FFF"[1..] == "FF" && "FF"[1..] == "F" && "F"[1..] == "";
    assert HexRunLength("") == 0;
    assert HexRunLength("F") == 1;
    assert HexRunLength("FF") == 2;
  }

  lemma HexNumberFFF()
    ensures AllHexDigits("FFF") && HexNumber("FFF") == 4095
  {
    assert "FFF"[..2] == "FF" && "FF"[..1] == "F" && "F"[..0] == "";
    assert HexNumber("F") == 15;
    assert HexNumber("FF") == 255;
  }

  lemma HexNumber6582()
    ensures AllHexDigits("6582") && HexNumber("6582") == 25986
  {
    assert "6582"[..3] == "658" && "658"[..2] == "65" && "65"[..1] == "6" && "6"[..0] == "";
    assert HexNumber("6") == 6;
    assert HexNumber("65") == 101;
    assert HexNumber("658") == 1624;
  }

  lemma HexNumber3D1A()
    ensures AllHexDigits("3D1A") && HexNumber("3D1A") == 15642
  {
    assert "3D1A"[..3] == "3D1" && "3D1"[..2] == "3D" && "3D"[..1] == "3" && "3"[..0] == "";
    assert HexNumber("3") == 3;
    assert HexNumber("3D") == 61;
    assert HexNumber("3D1") == 977;
  }

  /** The example frame "F52565823D1A" reads 24.39 °C and 23.87 %. */
  lemma GatewayExample(codec: BleCodec.Float32Codec, body: string)
    requires body == "F52565823D1A"
    ensures ParseHexData(codec, body, TypeF525) == HexReading(Some(24.39), Some(23.87))
  {
    ExampleFrameFields(codec, body);
    ReadingOfFields(codec, body, TypeF525, 25986, 15642);
    ExampleRounding();
  }

  lemma ExampleFrameFields(codec: BleCodec.Float32Codec, body: string)
    requires body == "F52565823D1A"
    ensures |body| == 12
    ensures ParseHexData(codec, body, TypeF525) == ReadingOf(codec, body, TypeF525, false)
    ensures FieldValue(body[4..8], false) == Some(25986) && FieldValue(body[8..12], false) == Some(15642)
  {
    NormalizeFixed(body);
    assert body[..4] == "F525";
    ReadFromStart(codec, body, TypeF525);
    ExampleFrameValues(body);
  }

  lemma ExampleFrameValues(body: string)
    requires body == "F52565823D1A"
    ensures FieldValue(body[4..8], false) == Some(25986) && FieldValue(body[8..12], false) == Some(15642)
  {
    assert body[4..8] == "6582";
    assert body[8..12] == "3D1A";
    HexNumber6582();
    HexNumber3D1A();
    FieldOfDigits("6582");
    FieldOfDigits("3D1A");
  }

  lemma ExampleRounding()
    ensures Reported(Some(BleCodec.TemperatureFromRaw(25986))) == Some(24.39)
    ensures Reported(Some(BleCodec.PercentFromRaw(15642))) == Some(23.87)
  {
    var tv := BleCodec.TemperatureFromRaw(25986);
    assert (tv * 100.0 + 0.5).Floor == 2439;
    var hv := BleCodec.PercentFromRaw(15642);
    assert (hv * 100.0 + 0.5).Floor == 2387;
  }
}
