/**
 * The decision part of `on_device_found` (lines 79-101): which advertisement
 * is decoded, by which decoder, and which exception escapes. The sinks (CSV
 * append and MQTT publish) only consume the reading and are not modelled.
 */
module Dispatch {
  import opened Wrappers
  import opened HexFormat
  import opened SensorDecode

  /** A BLE company identifier, the key type of ManufacturerData. */
  type CompanyId = x: int | 0 <= x < 0x1_0000

  /** The key under which both Govee sensors put their payload (0xEC88). */
  const GoveeKey: CompanyId := 60552

  const H5074Address: string := "e3:37:3c:61:b4:0f"
  const H5075Address: string := "a4:c1:38:e5:2f:38"

  /** The two properties of org.bluez.Device1 that the handler acts on; either may be absent. */
  datatype DeviceProps = DeviceProps(address: Option<string>, manufacturerData: Option<map<CompanyId, seq<byte>>>)

  /** What one call of the handler comes to. */
  datatype Handled =
    | NoReading                 // nothing decoded, nothing raised
    | Emitted(reading: Reading) // a reading that goes to the CSV file and to MQTT
    | Raised(error: Exception)  // an exception escapes the handler

  function CasefoldChar(c: char): (r: char)
  {
    if 'A' <= c <= 'Z' then (c as int + 32) as char else c
  }

  /** str.casefold on ASCII text: upper-case letters become lower-case, everything else stays. */
  function Casefold(s: string): (r: string)
    ensures |r| == |s|
    ensures forall i :: 0 <= i < |s| ==> !('A' <= r[i] <= 'Z')
    ensures forall i :: 0 <= i < |s| ==> r[i] == s[i] || ('A' <= s[i] <= 'Z' && r[i] as int == s[i] as int + 32)
  {
    seq(|s|, i requires 0 <= i < |s| => CasefoldChar(s[i]))
  }

  lemma CasefoldIdempotent(s: string)
    ensures Casefold(Casefold(s)) == Casefold(s)
  {
  }

  /** The comparison ignores case only: an upper-case spelling of a registered address matches. */
  lemma CasefoldMatchesUpperCase()
    ensures Casefold("E3:37:3C:61:B4:0F") == H5074Address
    ensures Casefold("A4:C1:38:E5:2F:38") == H5075Address
  {
  }

  /** Lift a decoder result into what the handler does with it. */
  function Outcome(r: Result<Reading, Exception>): Handled
  {
    match r
    case Success(reading) => Emitted(reading)
    case Failure(e) => Raised(e)
  }

  /**
   * Lines 79-101: only a non-empty ManufacturerData holding key 60552 is looked
   * at; then the case-folded address picks the decoder (its evaluation raises
   * AttributeError when Address is absent), and any other address is ignored.
   * The H5075 branch is decoded as line 94 is written.
   */
  function HandleAdvertisement(props: DeviceProps): (h: Handled)
    ensures h != NoReading ==> props.manufacturerData.Some? && GoveeKey in props.manufacturerData.value
    ensures h == Raised(AttributeError)
            <==> props.manufacturerData.Some? && GoveeKey in props.manufacturerData.value && props.address.None?
  {
    match props.manufacturerData
    case None => NoReading
    case Some(md) =>
      if md == map[] || GoveeKey !in md then NoReading
      else
        match props.address
        case None => Raised(AttributeError)
        case Some(address) =>
          if Casefold(address) == H5074Address then Outcome(DecodeH5074(md[GoveeKey]))
          else if Casefold(address) == H5075Address then Outcome(DecodeH5075(md[GoveeKey]))
          else NoReading
  }

  /** A reading comes only from a registered address and key 60552, and the address fixes the model. */
  lemma EmittedOnlyForRegisteredSensors(props: DeviceProps)
    ensures HandleAdvertisement(props).Emitted? ==>
      && props.manufacturerData.Some? && GoveeKey in props.manufacturerData.value
      && props.address.Some?
      && var reading := HandleAdvertisement(props).reading;
         var address := Casefold(props.address.value);
         && (reading.model == H5074 <==> address == H5074Address)
         && (reading.model == H5075 <==> address == H5075Address)
  {
  }

  /** An H5074 address with key 60552 is decoded by the H5074 layout, and only by it. */
  lemma H5074Dispatch(props: DeviceProps, address: string, md: map<CompanyId, seq<byte>>)
    requires props == DeviceProps(Some(address), Some(md))
    requires GoveeKey in md && Casefold(address) == H5074Address
    ensures HandleAdvertisement(props) == Outcome(DecodeH5074(md[GoveeKey]))
    ensures |md[GoveeKey]| >= 6 ==> HandleAdvertisement(props).Emitted?
    ensures |md[GoveeKey]| < 6 ==> HandleAdvertisement(props) == Raised(StructError)
  {
  }

  /** An H5075 address with key 60552 is decoded by the H5075 layout, and only by it. */
  lemma H5075Dispatch(props: DeviceProps, address: string, md: map<CompanyId, seq<byte>>)
    requires props == DeviceProps(Some(address), Some(md))
    requires GoveeKey in md && Casefold(address) == H5075Address
    ensures HandleAdvertisement(props) == Outcome(DecodeH5075(md[GoveeKey]))
    ensures |md[GoveeKey]| >= 5 ==> HandleAdvertisement(props).Emitted?
    ensures |md[GoveeKey]| < 2 ==> HandleAdvertisement(props) == Raised(ValueError)
    ensures 2 <= |md[GoveeKey]| < 5 ==> HandleAdvertisement(props) == Raised(IndexError)
  {
  }

  /** Absent or empty manufacturer data, or no key 60552: nothing decoded and nothing raised. */
  lemma NoGoveeKeyNoReading(props: DeviceProps)
    requires props.manufacturerData.None? || GoveeKey !in props.manufacturerData.value
    ensures HandleAdvertisement(props) == NoReading
  {
  }

  /** An unregistered address is silently ignored, whatever its payload. */
  lemma UnknownAddressNoReading(props: DeviceProps)
    requires props.address.Some?
    requires Casefold(props.address.value) != H5074Address && Casefold(props.address.value) != H5075Address
    ensures HandleAdvertisement(props) == NoReading
  {
  }

  /** An exception escapes only for key 60552 with a missing address or a payload too short for its layout. */
  lemma RaisedOnlyForMalformed(props: DeviceProps)
    requires HandleAdvertisement(props).Raised?
    ensures props.manufacturerData.Some? && GoveeKey in props.manufacturerData.value
    ensures var payload := props.manufacturerData.value[GoveeKey];
            || (props.address.None? && HandleAdvertisement(props).error == AttributeError)
            || (props.address.Some? && Casefold(props.address.value) == H5074Address && |payload| < 6)
            || (props.address.Some? && Casefold(props.address.value) == H5075Address && |payload| < 5)
  {
  }
}
