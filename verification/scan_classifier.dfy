/** The mobile scanner's advertising classifier: it normalises the fields
    that different BLE libraries use for a discovered device and decides,
    from the device name or a textual manufacturer payload, whether the
    device belongs to the JHT sensor family (F525, 39F5, 35F5).

    Device fields are JavaScript values combined with `||`, so an empty
    string and the number 0 count as absent. */
module ScanClassifier {
  import opened Wrappers
  import opened Text

  /** A manufacturer payload as a scanning library may report it: absent,
      a string, or some other (always truthy) value such as a buffer. */
  datatype Payload = Missing | Textual(s: string) | Opaque

  /** The discovered-device object, with every field a library may fill. */
  datatype Device = Device(
    localName: Option<string>, name: Option<string>, deviceName: Option<string>,
    rssi: Option<int>, rssiUpper: Option<int>, rssiValue: Option<int>,
    id: Option<string>, mac: Option<string>, address: Option<string>,
    manufacturerData: Payload, manufacturer: Payload)

  datatype Family = F525 | F39F5 | F35F5 | Unknown {
    /** The record's `type` string. */
    function Name(): string {
      match this
      case F525 => "F525"
      case F39F5 => "39F5"
      case F35F5 => "35F5"
      case Unknown => "unknown"
    }
  }

  /** The record returned for a recognised device; `raw` is the input. */
  datatype ScanRecord = ScanRecord(
    id: string, name: string, mac: Option<string>, rssi: Option<int>,
    family: Family, raw: Device)

  // ---------------------------------------------------------------------
  // JavaScript truthiness and `||`
  // ---------------------------------------------------------------------

  predicate Truthy(v: Option<string>) {
    v.Some? && |v.value| > 0
  }

  /** `a || b` on optional strings. */
  function Or(a: Option<string>, b: Option<string>): (r: Option<string>)
    ensures Truthy(r) <==> Truthy(a) || Truthy(b)
    ensures Truthy(a) ==> r == a
  {
    if Truthy(a) then a else b
  }

  /** `a || b` on optional numbers: 0 is falsy. */
  function OrNumber(a: Option<int>, b: Option<int>): (r: Option<int>)
    ensures a.Some? && a.value != 0 ==> r == a
    ensures !(a.Some? && a.value != 0) ==> r == b
  {
    if a.Some? && a.value != 0 then a else b
  }

  predicate PayloadTruthy(p: Payload) {
    match p
    case Missing => false
    case Textual(s) => |s| > 0
    case Opaque => true
  }

  // ---------------------------------------------------------------------
  // Field normalisation
  // ---------------------------------------------------------------------

  /** `ad.localName || ad.name || ad.deviceName`. */
  function LocalName(ad: Device): (r: Option<string>)
    ensures Truthy(r) <==> Truthy(ad.localName) || Truthy(ad.name) || Truthy(ad.deviceName)
  {
    Or(Or(ad.localName, ad.name), ad.deviceName)
  }

  /** `ad.id || ad.mac || ad.address`. */
  function MacOf(ad: Device): (r: Option<string>)
    ensures Truthy(r) <==> Truthy(ad.id) || Truthy(ad.mac) || Truthy(ad.address)
  {
    Or(Or(ad.id, ad.mac), ad.address)
  }

  /** `ad.rssi || ad.RSSI || ad.rssiValue`. */
  function Rssi(ad: Device): Option<int> {
    OrNumber(OrNumber(ad.rssi, ad.rssiUpper), ad.rssiValue)
  }

  /** `ad.manufacturerData || ad.manufacturer || null`. */
  function ManufacturerPayload(ad: Device): (p: Payload)
    ensures PayloadTruthy(p) <==> PayloadTruthy(ad.manufacturerData) || PayloadTruthy(ad.manufacturer)
    ensures PayloadTruthy(ad.manufacturerData) ==> p == ad.manufacturerData
  {
    if PayloadTruthy(ad.manufacturerData) then ad.manufacturerData
    else if PayloadTruthy(ad.manufacturer) then ad.manufacturer
    else Missing
  }

  // ---------------------------------------------------------------------
  // Classification
  // ---------------------------------------------------------------------

  /** `/F525|JHT|39F5|35F5/i.test(n)`. */
  predicate NameMatches(n: string) {
    ContainsIgnoreCase(n, "F525") || ContainsIgnoreCase(n, "JHT")
    || ContainsIgnoreCase(n, "39F5") || ContainsIgnoreCase(n, "35F5")
  }

  /** The record's type as the code computes it: F525, then 39F5, then 35F5,
      each case-insensitively, else 'unknown'. "JHT" is not consulted. */
  function FamilyOfName(n: string): (f: Family)
    ensures f == F525 <==> ContainsIgnoreCase(n, "F525")
    ensures f == F39F5 <==> !ContainsIgnoreCase(n, "F525") && ContainsIgnoreCase(n, "39F5")
    ensures f == F35F5 <==> !ContainsIgnoreCase(n, "F525") && !ContainsIgnoreCase(n, "39F5") && ContainsIgnoreCase(n, "35F5")
    ensures f != Unknown ==> NameMatches(n)
  {
    if ContainsIgnoreCase(n, "F525") then F525
    else if ContainsIgnoreCase(n, "39F5") then F39F5
    else if ContainsIgnoreCase(n, "35F5") then F35F5
    else Unknown
  }

  /** The type a name that passed the family filter evidently should get:
      the same order, with a name that mentions only "JHT" taken as a JHT
      F525 gateway, as the manufacturer-payload branch and the comment above
      the filter both say. */
  function FamilyOfNameCorrected(n: string): (f: Family)
    ensures NameMatches(n) <==> f != Unknown
    ensures FamilyOfName(n) != Unknown ==> f == FamilyOfName(n)
  {
    var f := FamilyOfName(n);
    if f == Unknown && ContainsIgnoreCase(n, "JHT") then F525 else f
  }

  /** The manufacturer-payload test: a non-empty string containing "JHT". */
  predicate ManufacturerMentionsJht(ad: Device) {
    var p := ManufacturerPayload(ad);
    p.Textual? && |p.s| > 0 && ContainsIgnoreCase(p.s, "JHT")
  }

  /** `parseAdvertising`, with the name-to-type step chosen by `corrected`. */
  function Classify(ad: Device, corrected: bool): (r: Option<ScanRecord>)
    ensures r.Some? ==> r.value.raw == ad && r.value.mac == MacOf(ad) && r.value.rssi == Rssi(ad)
    ensures r.Some? ==> (
      if Truthy(MacOf(ad)) then r.value.id == MacOf(ad).value
      else Truthy(LocalName(ad)) && r.value.id == LocalName(ad).value)
  {
    var localName := LocalName(ad);
    var mac := MacOf(ad);
    if !Truthy(localName) && !Truthy(mac) then None
    else
      var id := Or(mac, localName).value;
      if Truthy(localName) && NameMatches(localName.value) then
        var family := if corrected then FamilyOfNameCorrected(localName.value) else FamilyOfName(localName.value);
        Some(ScanRecord(id, localName.value, mac, Rssi(ad), family, ad))
      else if ManufacturerMentionsJht(ad) then
        var name := if Truthy(localName) then localName.value else "JHT Sensor";
        Some(ScanRecord(id, name, mac, Rssi(ad), F525, ad))
      else None
  }

  /** `parseAdvertising` as written. */
  function ParseAdvertising(ad: Device): Option<ScanRecord> {
    Classify(ad, false)
  }

  /** `parseAdvertising` with the corrected name-to-type step. */
  function ParseAdvertisingCorrected(ad: Device): Option<ScanRecord> {
    Classify(ad, true)
  }

  // ---------------------------------------------------------------------
  // Properties
  // ---------------------------------------------------------------------

  /** A device is recognised iff it has a name or an address and either its
      name passes the family filter or its textual manufacturer payload
      mentions "JHT"; both variants recognise the same devices. */
  lemma RecognisedIff(ad: Device, corrected: bool)
    ensures Classify(ad, corrected).Some? <==>
      (Truthy(LocalName(ad)) || Truthy(MacOf(ad)))
      && ((Truthy(LocalName(ad)) && NameMatches(LocalName(ad).value)) || ManufacturerMentionsJht(ad))
  {
  }

  /** The name branch: the record carries the normalised name and the
      type computed from it; a name match beats the manufacturer payload. */
  lemma NameBranch(ad: Device)
    requires Truthy(LocalName(ad)) && NameMatches(LocalName(ad).value)
    ensures var r := ParseAdvertising(ad);
      && r.Some?
      && r.value.name == LocalName(ad).value
      && r.value.family == FamilyOfName(LocalName(ad).value)
  {
  }

  /** The manufacturer branch: type F525, and the name defaults to
      'JHT Sensor' when the device has none. */
  lemma ManufacturerBranch(ad: Device, corrected: bool)
    requires Truthy(LocalName(ad)) || Truthy(MacOf(ad))
    requires !(Truthy(LocalName(ad)) && NameMatches(LocalName(ad).value))
    requires ManufacturerMentionsJht(ad)
    ensures var r := Classify(ad, corrected);
      && r.Some?
      && r.value.family == F525
      && r.value.name == (if Truthy(LocalName(ad)) then LocalName(ad).value else "JHT Sensor")
  {
  }

  /** The two variants differ only in the type given to a name that
      matches "JHT" and none of the family numbers. */
  lemma CorrectedDiffersOnlyOnJht(ad: Device)
    ensures ParseAdvertising(ad).Some? <==> ParseAdvertisingCorrected(ad).Some?
    ensures ParseAdvertising(ad).Some? && ParseAdvertising(ad).value.family != Unknown
      ==> ParseAdvertisingCorrected(ad) == ParseAdvertising(ad)
  {
  }

  /** Every recognised device gets a family under the corrected rule. */
  lemma CorrectedAlwaysKnown(ad: Device)
    requires ParseAdvertisingCorrected(ad).Some?
    ensures ParseAdvertisingCorrected(ad).value.family != Unknown
  {
  }

  lemma UpperOfUpper(s: string)
    requires forall i | 0 <= i < |s| :: !('a' <= s[i] <= 'z')
    ensures Upper(s) == s
  {
  }

  /** A device named "JHT" passes the family filter but is typed
      'unknown' by the code as written, and F525 by the corrected rule. */
  lemma JhtNameIsUnknown(ad: Device)
    requires ad.localName == Some("JHT")
    ensures ParseAdvertising(ad).Some? && ParseAdvertising(ad).value.family == Unknown
    ensures ParseAdvertisingCorrected(ad).Some? && ParseAdvertisingCorrected(ad).value.family == F525
  {
    var n := "JHT";
    assert LocalName(ad) == Some(n);
    assert ContainsIgnoreCase(n, "JHT") by {
      UpperOfUpper(n);
      assert OccursAt(n, "JHT", 0);
      IndexOfFirst(n, "JHT", 0);
    }
    assert !ContainsIgnoreCase(n, "F525") && !ContainsIgnoreCase(n, "39F5") && !ContainsIgnoreCase(n, "35F5");
  }
}
