/**
 * The two Govee payload layouts and the sign-magnitude temperature code.
 * Temperatures, humidities and battery levels are exact reals and integers;
 * they are the exact quotients that the script's float divisions round.
 */
module SensorDecode {
  import opened Wrappers
  import opened HexFormat

  /** The Python exceptions the decoding lines can raise. */
  datatype Exception =
    | ValueError      // int('', 16)
    | IndexError      // data[4] on a short payload
    | StructError     // struct.unpack_from on a short buffer
    | AttributeError  // None.casefold() when the Address property is missing

  datatype SensorModel = H5074 | H5075

  /** One decoded reading: degrees Celsius, percent relative humidity, battery byte. */
  datatype Reading = Reading(model: SensorModel, temperature: real, humidity: real, battery: byte)

  /** Bit 23, the sign flag of the H5075 packed value. */
  const SignBit: nat := 0x80_0000

  /** packet_value & 0x800000 is non-zero (for the non-negative values int(..., 16) yields). */
  predicate SignBitSet(v: nat)
  {
    (v / SignBit) % 2 == 1
  }

  /** packet_value ^ 0x800000 for a non-negative value. */
  function FlipSignBit(v: nat): (r: nat)
    ensures SignBitSet(r) <==> !SignBitSet(v)
    ensures r % SignBit == v % SignBit
    ensures r / (2 * SignBit) == v / (2 * SignBit)
  {
    if SignBitSet(v) then v - SignBit else v + SignBit
  }

  /** The value with bit 23 cleared: what the sign-magnitude code calls the magnitude. */
  function Magnitude(v: nat): (m: nat)
    ensures !SignBitSet(m)
    ensures m % SignBit == v % SignBit && m <= v
    ensures m / (2 * SignBit) == v / (2 * SignBit)
  {
    if SignBitSet(v) then FlipSignBit(v) else v
  }

  /** decode_temps: bit 23 is the sign, the rest the magnitude in 1/10000 degree Celsius. */
  function DecodeTemps(v: nat): (t: real)
    ensures SignBitSet(v) ==> t <= 0.0
    ensures !SignBitSet(v) ==> t >= 0.0
    ensures t * (if SignBitSet(v) then -10000.0 else 10000.0) == Magnitude(v) as real
  {
    if SignBitSet(v) then (FlipSignBit(v) as real) / -10000.0 else (v as real) / 10000.0
  }

  /** Within 24 bits the sign is bit 23 and the magnitude the low 23 bits. */
  lemma DecodeTempsSignMagnitude(v: nat)
    requires v < 0x100_0000
    ensures SignBitSet(v) <==> v >= SignBit
    ensures SignBitSet(v) ==> DecodeTemps(v) == -((v - SignBit) as real / 10000.0) && DecodeTemps(v) <= 0.0
    ensures !SignBitSet(v) ==> DecodeTemps(v) == v as real / 10000.0 && DecodeTemps(v) >= 0.0
    ensures DecodeTemps(v) * (if SignBitSet(v) then -10000.0 else 10000.0) == (v % SignBit) as real
  {
  }

  /** How the sensor packs a signed temperature magnitude (the inverse of decode_temps). */
  function EncodeTemps(negative: bool, magnitude: nat): (v: nat)
    requires magnitude < SignBit
    ensures v < 0x100_0000
  {
    if negative then magnitude + SignBit else magnitude
  }

  lemma DecodeEncodeTemps(negative: bool, magnitude: nat)
    requires magnitude < SignBit
    ensures DecodeTemps(EncodeTemps(negative, magnitude))
            == (if negative then -(magnitude as real) else magnitude as real) / 10000.0
    ensures Magnitude(EncodeTemps(negative, magnitude)) == magnitude
  {
  }

  /**
   * The packed value is tenths of a degree times 1000 plus tenths of a percent, so
   * magnitude / 10000 carries the humidity digits below the tenths of a degree:
   * the reported temperature stays within 0.1 degree of the tenths reading.
   */
  lemma TemperatureNearTenths(v: nat)
    ensures var tenths := (Magnitude(v) / 1000) as real / 10.0;
            var t := DecodeTemps(v);
            var a := if t < 0.0 then -t else t;
            tenths <= a < tenths + 0.1
  {
  }

  /** temp_hum % 1000 / 10, as line 94 writes it: the sign bit takes part. */
  function HumidityAsWritten(packed: nat): (h: real)
    ensures 0.0 <= h <= 99.9
  {
    (packed % 1000) as real / 10.0
  }

  /** The humidity digits of the magnitude: what the sensor sends, whatever the sign. */
  function Humidity(packed: nat): (h: real)
    ensures 0.0 <= h <= 99.9
  {
    (Magnitude(packed) % 1000) as real / 10.0
  }

  /** The corrected humidity does not depend on the sign of the temperature. */
  lemma HumidityIgnoresSign(negative: bool, magnitude: nat)
    requires magnitude < SignBit
    ensures Humidity(EncodeTemps(negative, magnitude)) == (magnitude % 1000) as real / 10.0
  {
  }

  /** For every sub-zero reading the as-written humidity is wrong (2^23 mod 1000 is 608). */
  lemma HumidityAsWrittenWrongBelowZero(packed: nat)
    requires SignBitSet(packed)
    ensures HumidityAsWritten(packed) != Humidity(packed)
  {
  }

  /** Bytes 00 81 02 03: as written 65.9 %, the sensor meant 5.1 %. */
  lemma HumidityAsWrittenExample()
    ensures HumidityAsWritten(0x81_0203) == 65.9
    ensures Humidity(0x81_0203) == 5.1
  {
  }

  /** Python's data[i:j] for 0 <= i <= j: both bounds clamped to the length. */
  function Slice(s: seq<byte>, i: nat, j: nat): (r: seq<byte>)
    requires i <= j
    ensures |s| >= j ==> r == s[i..j]
    ensures i <= |s| < j ==> r == s[i..]
    ensures |s| < i ==> r == []
    ensures |r| == (if |s| >= j then j - i else if |s| >= i then |s| - i else 0)
  {
    var lo := if i <= |s| then i else |s|;
    var hi := if j <= |s| then j else |s|;
    s[lo..hi]
  }

  /** The fields of "<HHB" read from bytes 1..5 of an H5074 payload. */
  datatype H5074Frame = H5074Frame(tempRaw: nat, humRaw: nat, battery: byte)

  /** struct.unpack_from("<HHB", bytes(data)[1:]): two little-endian uint16 and a uint8. */
  function UnpackH5074(data: seq<byte>): (r: Result<H5074Frame, Exception>)
    ensures r.Failure? <==> |data| < 6
    ensures r.Failure? ==> r.error == StructError
    ensures r.Success? ==> r.value.tempRaw < 0x1_0000 && r.value.humRaw < 0x1_0000
  {
    var b := Slice(data, 1, |data| + 1);
    if |b| < 5 then Failure(StructError)
    else Success(H5074Frame(b[0] as int + 256 * b[1] as int, b[2] as int + 256 * b[3] as int, b[4]))
  }

  /** The six-byte H5074 payload a frame comes from, the header byte first. */
  function EncodeH5074(header: byte, f: H5074Frame): (data: seq<byte>)
    requires f.tempRaw < 0x1_0000 && f.humRaw < 0x1_0000
    ensures |data| == 6 && data[0] == header
  {
    [header, f.tempRaw % 256, f.tempRaw / 256, f.humRaw % 256, f.humRaw / 256, f.battery]
  }

  lemma H5074RoundTrip(header: byte, f: H5074Frame, trailer: seq<byte>)
    requires f.tempRaw < 0x1_0000 && f.humRaw < 0x1_0000
    ensures UnpackH5074(EncodeH5074(header, f) + trailer) == Success(f)
  {
  }

  /** Only the first six bytes matter, and they are recovered from the frame. */
  lemma H5074Complete(data: seq<byte>)
    requires |data| >= 6
    ensures UnpackH5074(data).Success?
    ensures EncodeH5074(data[0], UnpackH5074(data).value) == data[..6]
  {
  }

  /** Lines 81-83: the reading of an H5074 payload, temperature and humidity in hundredths. */
  function DecodeH5074(data: seq<byte>): (r: Result<Reading, Exception>)
    ensures r.Failure? <==> |data| < 6
    ensures r.Failure? ==> r.error == StructError
    ensures r.Success? ==>
      && r.value.model == H5074
      && r.value.temperature == (data[1] as int + 256 * data[2] as int) as real / 100.0
      && r.value.humidity == (data[3] as int + 256 * data[4] as int) as real / 100.0
      && r.value.battery == data[5]
      && 0.0 <= r.value.temperature <= 655.35
      && 0.0 <= r.value.humidity <= 655.35
  {
    match UnpackH5074(data)
    case Failure(e) => Failure(e)
    case Success(f) => Success(Reading(H5074, f.tempRaw as real / 100.0, f.humRaw as real / 100.0, f.battery))
  }

  /** The packed 24-bit value and the battery byte of an H5075 payload. */
  datatype H5075Frame = H5075Frame(packed: nat, battery: byte)

  /** Line 92 fails exactly when data[1:4] is empty, and reads bytes 1..3 big-endian when all three exist. */
  lemma PackedBytes(data: seq<byte>)
    ensures ParseHex(RemoveSpaces(HexString(Slice(data, 1, 4)))).None? <==> |data| < 2
    ensures |data| >= 4 ==> ParseHex(RemoveSpaces(HexString(Slice(data, 1, 4))))
                            == Some(data[1] as int * 65536 + data[2] as int * 256 + data[3] as int)
  {
    var middle := Slice(data, 1, 4);
    HexPipelineIsBigEndian(middle);
    if |data| >= 4 {
      BigEndianThree(middle);
    }
  }

  /**
   * Lines 91-92 and 95: int(hex_string(data[1:4]).replace(" ", ""), 16), then data[4].
   * The first raises ValueError when data[1:4] is empty, the second IndexError
   * when the payload has fewer than five bytes.
   */
  function UnpackH5075(data: seq<byte>): (r: Result<H5075Frame, Exception>)
    ensures |data| < 2 ==> r == Failure(ValueError)
    ensures 2 <= |data| < 5 ==> r == Failure(IndexError)
    ensures |data| >= 5 ==>
      r == Success(H5075Frame(data[1] as int * 65536 + data[2] as int * 256 + data[3] as int, data[4]))
    ensures r.Success? ==> r.value.packed < 0x100_0000
  {
    PackedBytes(data);
    match ParseHex(RemoveSpaces(HexString(Slice(data, 1, 4))))
    case None => Failure(ValueError)
    case Some(packed) =>
      if |data| < 5 then Failure(IndexError) else Success(H5075Frame(packed, data[4]))
  }

  /** The five-byte H5075 payload a frame comes from, the header byte first. */
  function EncodeH5075(header: byte, f: H5075Frame): (data: seq<byte>)
    requires f.packed < 0x100_0000
    ensures |data| == 5 && data[0] == header
  {
    [header, f.packed / 65536, (f.packed / 256) % 256, f.packed % 256, f.battery]
  }

  lemma H5075RoundTrip(header: byte, f: H5075Frame, trailer: seq<byte>)
    requires f.packed < 0x100_0000
    ensures UnpackH5075(EncodeH5075(header, f) + trailer) == Success(f)
  {
    var p := f.packed;
    assert p == (p / 65536) * 65536 + ((p / 256) % 256) * 256 + p % 256;
  }

  /** Only the first five bytes matter, and they are recovered from the frame. */
  lemma H5075Complete(data: seq<byte>)
    requires |data| >= 5
    ensures UnpackH5075(data).Success?
    ensures EncodeH5075(data[0], UnpackH5075(data).value) == data[..5]
  {
    ThreeDigits(data[1], data[2], data[3]);
  }

  /** Division and remainder by 256 take a big-endian three-byte value apart again. */
  lemma ThreeDigits(hi: byte, mid: byte, lo: byte)
    ensures var p := hi as int * 65536 + mid as int * 256 + lo as int;
            p / 65536 == hi && (p / 256) % 256 == mid && p % 256 == lo
  {
    var p := hi as int * 65536 + mid as int * 256 + lo as int;
    assert p / 256 == hi as int * 256 + mid as int;
  }


  /**
   * Lines 90-95 as written: the temperature from decode_temps, and the humidity
   * from the packed value with bit 23 still in it (line 94).
   */
  function DecodeH5075(data: seq<byte>): (r: Result<Reading, Exception>)
    ensures r.Failure? <==> |data| < 5
    ensures r.Success? ==>
      var packed := data[1] as int * 65536 + data[2] as int * 256 + data[3] as int;
      && r.value.model == H5075
      && r.value.temperature == DecodeTemps(packed)
      && r.value.humidity == HumidityAsWritten(packed)
      && r.value.battery == data[4]
  {
    match UnpackH5075(data)
    case Failure(e) => Failure(e)
    case Success(f) => Success(Reading(H5075, DecodeTemps(f.packed), HumidityAsWritten(f.packed), f.battery))
  }

  /** Lines 90-95 with line 94 corrected: the humidity digits come from the magnitude. */
  function DecodeH5075Corrected(data: seq<byte>): (r: Result<Reading, Exception>)
    ensures r.Failure? <==> |data| < 5
    ensures r.Success? ==>
      var packed := data[1] as int * 65536 + data[2] as int * 256 + data[3] as int;
      && r.value.model == H5075
      && r.value.temperature == DecodeTemps(packed)
      && r.value.humidity == Humidity(packed)
      && r.value.battery == data[4]
  {
    match UnpackH5075(data)
    case Failure(e) => Failure(e)
    case Success(f) => Success(Reading(H5075, DecodeTemps(f.packed), Humidity(f.packed), f.battery))
  }

  /**
   * The script and the corrected decoder disagree exactly on the complete
   * payloads whose byte 1 carries the sign bit, that is on sub-zero readings.
   */
  lemma DecodersAgree(data: seq<byte>)
    ensures DecodeH5075(data) == DecodeH5075Corrected(data) <==> |data| < 5 || data[1] < 0x80
  {
    if |data| >= 5 {
      var packed := data[1] as int * 65536 + data[2] as int * 256 + data[3] as int;
      DecodeTempsSignMagnitude(packed);
      if data[1] >= 0x80 {
        HumidityAsWrittenWrongBelowZero(packed);
      }
    }
  }

  /** 2^23 leaves 608 modulo 1000: the offset line 94 adds to a sub-zero humidity. */
  lemma SignBitDigits(magnitude: nat)
    ensures (magnitude + SignBit) % 1000 == (magnitude + 608) % 1000
  {
    assert magnitude + SignBit == (magnitude + 608) + 8388 * 1000;
  }

  /**
   * The H5075 reading of a payload that carries a given sign, magnitude and
   * battery byte: the script adds 608 to the humidity digits below zero, the
   * corrected decoder does not.
   */
  lemma H5075Decodes(header: byte, negative: bool, magnitude: nat, battery: byte)
    requires magnitude < SignBit
    ensures var data := EncodeH5075(header, H5075Frame(EncodeTemps(negative, magnitude), battery));
            var t := (if negative then -(magnitude as real) else magnitude as real) / 10000.0;
            && DecodeH5075(data)
               == Success(Reading(H5075, t, ((magnitude + (if negative then 608 else 0)) % 1000) as real / 10.0, battery))
            && DecodeH5075Corrected(data)
               == Success(Reading(H5075, t, (magnitude % 1000) as real / 10.0, battery))
  {
    var f := H5075Frame(EncodeTemps(negative, magnitude), battery);
    H5075RoundTrip(header, f, []);
    assert EncodeH5075(header, f) + [] == EncodeH5075(header, f);
    DecodeEncodeTemps(negative, magnitude);
    HumidityIgnoresSign(negative, magnitude);
    SignBitDigits(magnitude);
  }

  /**
   * A sensor reading of tempTenths tenths of a degree and humTenths tenths of a
   * percent, packed as tempTenths * 1000 + humTenths with the sign in bit 23:
   * the corrected humidity is humTenths / 10, line 94 is 60.8 points off below
   * zero (modulo 100), and the temperature is the tenths reading plus the three
   * humidity digits in the second to fourth decimal places (up to 0.0999 degree).
   */
  lemma TenthsReadings(negative: bool, tempTenths: nat, humTenths: nat)
    requires humTenths < 1000 && tempTenths * 1000 + humTenths < SignBit
    ensures Humidity(EncodeTemps(negative, tempTenths * 1000 + humTenths)) == humTenths as real / 10.0
    ensures HumidityAsWritten(EncodeTemps(negative, tempTenths * 1000 + humTenths))
            == ((humTenths + (if negative then 608 else 0)) % 1000) as real / 10.0
    ensures DecodeTemps(EncodeTemps(negative, tempTenths * 1000 + humTenths))
            == (if negative then -1.0 else 1.0) * (tempTenths as real / 10.0 + humTenths as real / 10000.0)
  {
    var m := tempTenths * 1000 + humTenths;
    DecodeEncodeTemps(negative, m);
    HumidityIgnoresSign(negative, m);
    TenthsDigits(tempTenths, humTenths);
    if negative {
      SignBitDigits(m);
      ThousandsDrop(tempTenths, humTenths + 608);
      assert m + 608 == tempTenths * 1000 + (humTenths + 608);
      assert HumidityAsWritten(EncodeTemps(true, m)) == ((m + SignBit) % 1000) as real / 10.0;
    }
  }

  lemma ThousandsDrop(thousands: nat, x: nat)
    ensures (thousands * 1000 + x) % 1000 == x % 1000
  {
  }

  lemma TenthsDigits(tempTenths: nat, humTenths: nat)
    requires humTenths < 1000
    ensures (tempTenths * 1000 + humTenths) % 1000 == humTenths
    ensures (tempTenths * 1000 + humTenths) as real / 10000.0
            == tempTenths as real / 10.0 + humTenths as real / 10000.0
  {
  }

  /** The worked payload 00 01 02 03 64: 6.6051 degrees, 5.1 percent, battery 100, by either decoder. */
  lemma H5075Example()
    ensures DecodeH5075([0x00, 0x01, 0x02, 0x03, 0x64]) == Success(Reading(H5075, 6.6051, 5.1, 100))
    ensures DecodeH5075Corrected([0x00, 0x01, 0x02, 0x03, 0x64]) == Success(Reading(H5075, 6.6051, 5.1, 100))
  {
    var data: seq<byte> := [0x00, 0x01, 0x02, 0x03, 0x64];
    assert data[1] as int * 65536 + data[2] as int * 256 + data[3] as int == 0x01_0203;
    assert !SignBitSet(0x01_0203);
    assert DecodeTemps(0x01_0203) == 6.6051;
    assert HumidityAsWritten(0x01_0203) == Humidity(0x01_0203) == 5.1;
  }

  /** The worked payload 00 81 02 03 32: minus 6.6051 degrees and battery 50; humidity 65.9 as written, 5.1 corrected. */
  lemma H5075NegativeExample()
    ensures DecodeH5075([0x00, 0x81, 0x02, 0x03, 0x32]) == Success(Reading(H5075, -6.6051, 65.9, 50))
    ensures DecodeH5075Corrected([0x00, 0x81, 0x02, 0x03, 0x32]) == Success(Reading(H5075, -6.6051, 5.1, 50))
  {
    var data: seq<byte> := [0x00, 0x81, 0x02, 0x03, 0x32];
    assert data[1] as int * 65536 + data[2] as int * 256 + data[3] as int == 0x81_0203;
    assert SignBitSet(0x81_0203);
    assert DecodeTemps(0x81_0203) == -6.6051;
    HumidityAsWrittenExample();
  }
}
