# govee2mqtt: the advertisement decoder, in Dafny

This project models the decoding core of `govee2mqtt.py`. The script listens to BlueZ
`InterfacesAdded` signals over D-Bus and recognises two Govee thermometers by their
hard-coded MAC addresses:
- the H5074 at `e3:37:3c:61:b4:0f`;
- the H5075 at `a4:c1:38:e5:2f:38`.

It decodes the manufacturer data stored under company identifier 60552 (0xEC88) into a
temperature, a humidity and a battery byte. After each advertisement whose decoding raises
nothing, it asks the adapter to forget the device, so that BlueZ reports the device's next advertisement again.

Modules, one per component of the script:

- `Wrappers`: `Option` and `Result`.
- `HexFormat`: `hex_string`, the `.replace(" ", "")` step and `int(..., 16)`. The model
  proves that together they compute the big-endian value of the bytes.
- `SensorDecode`: `decode_temps` (sign-magnitude, with bit 23 as the sign flag) and the
  H5074 and H5075 payload layouts. Each layout has an encoder as its partner, with
  round-trip lemmas in both directions (`H5074RoundTrip`/`H5074Complete`,
  `H5075RoundTrip`/`H5075Complete`). The H5075 decoder follows line 94 as written;
  a corrected decoder sits beside it (see "## Findings"). Temperatures and humidities are exact `real`
  quotients, and the Python exceptions are the values of a `Result`.
- `Dispatch`: lines 79-101 of `on_device_found` as one pure function
  (`HandleAdvertisement`), with lemmas for each branch.
- `Beacons`: the imperative part.
  - `Adapter` is a class holding the devices BlueZ knows. `RemoveDevice` fails for an
    unknown handle.
  - `HandleSet` is the Python set `remove_list`, updated in place.
  - `CleanBeacons`, `OnDeviceFound` and `OnIfaceAdded` are methods over these objects.

Behaviour of the script that the model keeps, although a reader might expect otherwise:

- An exception during decoding skips lines 103-104. When that happens, no handle is
  retired and the adapter is untouched. This covers a payload that is too short and a
  missing `Address` property, so retirement does not follow every event. An exception
  from the output lines would have the same effect; it is not modelled (see "## Left out").
- The device registry consists of the two hard-coded addresses. Each address fixes the
  decoder.
- The battery value is the raw byte (0..255); nothing scales or bounds it to a percentage.
- The H5075 humidity is `temp_hum % 1000 / 10` on the packed value with the sign bit
  still set, so sub-zero readings get a wrong humidity (see "## Findings").
- The H5075 temperature is `packed / 10000`, as written. This adds the three humidity digits in
  the second to fourth decimal places, so up to 0.0999 degree. `TemperatureNearTenths` bounds
  the effect to less than 0.1 degree.

## Model

| member | source | states |
|---|---|---|
| `HexFormat.HexDigit` | govee2mqtt.py:59 | the `x` format writes a lower-case digit 0-9/a-f that `int(..., 16)` reads back as the same value |
| `HexFormat.DigitValue` | govee2mqtt.py:92 | a hexadecimal digit of either case has a value below 16 |
| `HexFormat.Format02x` | govee2mqtt.py:59 | `"{:02x} "` gives three characters: two lower-case hex digits (0-9, a-f) that spell the byte (high digit first), then a space |
| `HexFormat.HexString` | govee2mqtt.py:58-59 | `hex_string(b)` has length 3·\|b\| |
| `HexFormat.HexStringAt` | govee2mqtt.py:58-59 | byte i of the input becomes characters 3i..3i+2 of the output, in input order |
| `HexFormat.RemoveSpaces` | govee2mqtt.py:91 | `.replace(" ", "")` output contains exactly the input's non-space characters; one character is dropped iff it is a space, and a string without spaces is unchanged (with `RemoveSpacesAppend` this fixes order and multiplicity) |
| `HexFormat.RemoveSpacesAppend` | govee2mqtt.py:91 | stripping spaces distributes over concatenation |
| `HexFormat.HexValue` | govee2mqtt.py:92 | the value of n hex digits is below 16^n |
| `HexFormat.ParseHex` | govee2mqtt.py:92 | `int(s, 16)` on a string without sign, prefix, underscore, whitespace or non-ASCII digit fails exactly when it is empty or holds a non-digit; otherwise the value is below 16^\|s\| |
| `HexFormat.BigEndian` | govee2mqtt.py:91-92 | the big-endian value of n bytes is below 256^n |
| `HexFormat.BigEndianThree` | govee2mqtt.py:91-92 | three bytes give `b0*65536 + b1*256 + b2` |
| `HexFormat.StrippedHexString` | govee2mqtt.py:91-92 | the stripped hex string is 2·\|b\| hex digits whose value is the big-endian value of b |
| `HexFormat.HexPipelineIsBigEndian` | govee2mqtt.py:91-92 | `int(hex_string(b).replace(" ", ""), 16)` is `BigEndian(b)`, and it raises ValueError exactly when b is empty |
| `SensorDecode.FlipSignBit` | govee2mqtt.py:54 | `v ^ 0x800000` toggles bit 23 and keeps the low 23 bits and every bit above 23 |
| `SensorDecode.DecodeTemps` | govee2mqtt.py:49-55 | `decode_temps(v)` is ≤ 0 when bit 23 is set and ≥ 0 otherwise, and its absolute value times 10000 is the magnitude (v with bit 23 cleared) |
| `SensorDecode.Magnitude` | govee2mqtt.py:53-54 | the magnitude has bit 23 clear, keeps the low 23 bits and every bit above 23, and is at most v |
| `SensorDecode.DecodeTempsSignMagnitude` | govee2mqtt.py:49-55 | below 2^24: bit set iff v ≥ 0x800000, then the result is −(v−0x800000)/10000 ≤ 0; otherwise it is v/10000 ≥ 0; the absolute value times 10000 equals the low 23 bits |
| `SensorDecode.EncodeTemps` | govee2mqtt.py:49-55 | the sensor's sign-magnitude packing of a magnitude below 2^23 fits in 24 bits |
| `SensorDecode.DecodeEncodeTemps` | govee2mqtt.py:49-55 | `decode_temps` inverts the packing: ±magnitude/10000, and the magnitude is recovered |
| `SensorDecode.TemperatureNearTenths` | govee2mqtt.py:53-55 | the absolute temperature lies in [tenths, tenths + 0.1), where tenths is (magnitude / 1000) / 10 |
| `SensorDecode.HumidityAsWritten` | govee2mqtt.py:94 | `temp_hum % 1000 / 10` as written lies in [0, 99.9] |
| `SensorDecode.Humidity` | govee2mqtt.py:94 | the corrected humidity (from the magnitude) lies in [0, 99.9] |
| `SensorDecode.HumidityIgnoresSign` | govee2mqtt.py:94 | the corrected humidity is (magnitude mod 1000)/10 for either sign |
| `SensorDecode.HumidityAsWrittenWrongBelowZero` | govee2mqtt.py:94 | with bit 23 set, the as-written humidity always differs from the corrected one |
| `SensorDecode.HumidityAsWrittenExample` | govee2mqtt.py:94 | packed 0x810203 gives 65.9 as written, and 5.1 corrected |
| `SensorDecode.Slice` | govee2mqtt.py:91 | `data[i:j]` clamps both bounds to the length: `s[i..j]` when j fits, `s[i..]` when only i fits, empty otherwise |
| `SensorDecode.UnpackH5074` | govee2mqtt.py:82 | `unpack_from("<HHB", data[1:])` fails with struct.error iff the payload has fewer than 6 bytes; both uint16 fields are below 65536 |
| `SensorDecode.EncodeH5074` | govee2mqtt.py:82 | a frame lays out as 6 bytes, the header byte first |
| `SensorDecode.H5074RoundTrip` | govee2mqtt.py:82 | unpacking an encoded frame, with any trailing bytes, gives the frame back |
| `SensorDecode.H5074Complete` | govee2mqtt.py:82 | every payload of 6 or more bytes is the encoding of its unpacked frame, in its first 6 bytes |
| `SensorDecode.DecodeH5074` | govee2mqtt.py:81-83 | fails iff fewer than 6 bytes; otherwise temperature is (b1 + 256·b2)/100, humidity is (b3 + 256·b4)/100 (both in [0, 655.35]) and battery is b5 |
| `SensorDecode.PackedBytes` | govee2mqtt.py:91-92 | line 92 fails iff the payload is shorter than 2 bytes; with 4 or more bytes it reads bytes 1..3 big-endian |
| `SensorDecode.UnpackH5075` | govee2mqtt.py:90-95 | fewer than 2 bytes raise ValueError; 2 to 4 bytes raise IndexError; otherwise packed is b1·65536 + b2·256 + b3 (< 2^24) and battery is b4 |
| `SensorDecode.EncodeH5075` | govee2mqtt.py:91-95 | a frame lays out as 5 bytes, the header byte first |
| `SensorDecode.H5075RoundTrip` | govee2mqtt.py:91-95 | unpacking an encoded frame, with any trailing bytes, gives the frame back |
| `SensorDecode.H5075Complete` | govee2mqtt.py:91-95 | every payload of 5 or more bytes is the encoding of its unpacked frame, in its first 5 bytes |
| `SensorDecode.DecodeH5075` | govee2mqtt.py:90-95 | as written: fails iff fewer than 5 bytes; otherwise temperature is `decode_temps(packed)`, humidity is `packed % 1000 / 10` with the sign bit included, and battery is b4 |
| `SensorDecode.DecodeH5075Corrected` | govee2mqtt.py:90-95 | the same with line 94 corrected: humidity is the corrected humidity of packed |
| `SensorDecode.DecodersAgree` | govee2mqtt.py:90-95 | the script and the corrected decoder agree exactly when the payload is too short or byte 1 is below 0x80 (the sign bit clear) |
| `SensorDecode.H5075Decodes` | govee2mqtt.py:90-95 | a payload carrying sign, magnitude and battery decodes to ±magnitude/10000 and the battery byte; the humidity is ((magnitude + 608) mod 1000)/10 below zero and (magnitude mod 1000)/10 otherwise as written, and (magnitude mod 1000)/10 always when corrected |
| `SensorDecode.TenthsReadings` | govee2mqtt.py:49-55 | a reading of t tenths of a degree and h tenths of a percent, packed as t·1000 + h with the sign in bit 23, decodes to temperature ±(t/10 + h/10000); the corrected humidity is h/10, and line 94 gives ((h + 608) mod 1000)/10 below zero and h/10 otherwise |
| `SensorDecode.H5075Example` | govee2mqtt.py:90-95 | bytes 00 01 02 03 64 give 6.6051 °C, 5.1 %, battery 100, as written and corrected |
| `SensorDecode.H5075NegativeExample` | govee2mqtt.py:90-95 | bytes 00 81 02 03 32 give −6.6051 °C and battery 50, with humidity 65.9 % as written and 5.1 % corrected |
| `Dispatch.Casefold` | govee2mqtt.py:80 | casefolding keeps the length, leaves no upper-case ASCII letter, and changes only upper-case letters, to their lower-case form |
| `Dispatch.CasefoldIdempotent` | govee2mqtt.py:80 | casefolding twice is casefolding once |
| `Dispatch.CasefoldMatchesUpperCase` | govee2mqtt.py:80-89 | the upper-case spellings of both registered addresses match |
| `Dispatch.HandleAdvertisement` | govee2mqtt.py:79-101 | anything but "no reading" needs key 60552 in the manufacturer data; AttributeError is raised iff that key is present and the Address property is missing |
| `Dispatch.EmittedOnlyForRegisteredSensors` | govee2mqtt.py:79-101 | a reading needs key 60552 and an address; the model is H5074 iff the casefolded address is the H5074 MAC, and H5075 iff it is the H5075 MAC |
| `Dispatch.H5074Dispatch` | govee2mqtt.py:80-83 | key 60552 with the H5074 address gives the H5074 decoding: a reading from 6 bytes up, struct.error below that |
| `Dispatch.H5075Dispatch` | govee2mqtt.py:89-95 | key 60552 with the H5075 address gives the H5075 decoding: a reading from 5 bytes up, IndexError for 2-4 bytes, ValueError below 2 |
| `Dispatch.NoGoveeKeyNoReading` | govee2mqtt.py:79-80 | no manufacturer data, or no key 60552: no reading and no exception |
| `Dispatch.UnknownAddressNoReading` | govee2mqtt.py:80-89 | any other address: no reading and no exception |
| `Dispatch.RaisedOnlyForMalformed` | govee2mqtt.py:79-95 | an exception needs key 60552, and then either a missing address (AttributeError) or a payload too short for the address's layout |
| `Beacons.Adapter.RemoveDevice` | govee2mqtt.py:33 | removal succeeds iff the adapter knows the handle; afterwards the adapter does not know it, and the call is recorded |
| `Beacons.HandleSet.Add` | govee2mqtt.py:103 | `set.add` inserts the handle |
| `Beacons.HandleSet.Remove` | govee2mqtt.py:37 | `set.remove` deletes the handle; it reports KeyError iff the handle was absent |
| `Beacons.CleanBeacons` | govee2mqtt.py:24-37 | RemoveDevice is called exactly once per handle of remove_list and for nothing else; no failure escapes; the adapter forgets all of them; afterwards remove_list is the old set minus exactly the handles whose removal failed |
| `Beacons.OnDeviceFound` | govee2mqtt.py:62-104 | the outcome is `HandleAdvertisement(props)`; without an exception exactly `{device_path}` is retired (one RemoveDevice call); with one the adapter is untouched |
| `Beacons.OnIfaceAdded` | govee2mqtt.py:40-47 | a signal without Device1 does nothing; with Device1, `on_device_found` runs on that interface's properties and has the effects above |

## Findings

| source | as written | input that shows it | evidently intended | confidence | as-written member | corrected member |
|---|---|---|---|---|---|---|
| govee2mqtt.py:94 | `temp_hum % 1000 / 10` takes the humidity digits from the packed value with bit 23 still set | H5075 payload `00 81 02 03 32` (−6.6 °C, 5.1 %): humidity 65.9, because 2^23 mod 1000 = 608 | humidity from the 23-bit magnitude, as for the temperature: 5.1 | high; not executed | `SensorDecode.DecodeH5075` (with `HumidityAsWritten`, `HumidityAsWrittenWrongBelowZero`, `H5075NegativeExample`) | `SensorDecode.DecodeH5075Corrected` (with `Humidity`, `HumidityIgnoresSign`, `DecodersAgree`) |

## Left out

- MQTT: the client construction, the connection and the `client.publish` calls (lines 14-16, 87-88, 100-101) are network I/O. `Emitted(reading)` marks where they would run.
- The CSV append and `print` (lines 83-86, 96-99) are filesystem and console I/O. The row text depends on `datetime.now()` and on Python's float formatting.
- The GLib main loop, `stop_scan`, the duration timer, argparse, the D-Bus subscription, `SetDiscoveryFilter` and `StartDiscovery` (lines 18-21, 107-131) are event-loop and D-Bus plumbing.
- The global `adapter` becomes an explicit parameter. Any GLib.Error from `RemoveDevice` is modelled as the one failure "handle unknown", which the script treats the same way.
- `Beacons.OnDeviceFound` and `Beacons.OnIfaceAdded` assume that `print`, the CSV write and `client.publish` return normally. If one of them raises (`open` at lines 85 and 98 raises OSError when the directory is missing or not writable), lines 103-104 are skipped just as after a decoding exception, and nothing is retired; the model does not capture that case.
- What GLib does with an exception that escapes the handler is not modelled. The handler returns `Raised(e)` and stops at that point.
- IEEE floats: the divisions are exact `real` quotients. For example, Python's `-0.0` for packed 0x800000 is 0 here.
- The unused property reads (lines 71-77) have no effect.
- `Dispatch.Casefold`: only the ASCII case mapping of `str.casefold` is modelled. Some non-ASCII characters do fold to ASCII text (U+212A KELVIN SIGN to `k`, U+017F to `s`, U+FB00 to `ff`), but no fold of this kind occurs as a piece of either address, so an address matches under the full folding iff it matches under the ASCII one.
- `HexFormat.ParseHex`: `int(s, 16)` also accepts a sign, a `0x` prefix, underscores, surrounding whitespace and non-ASCII decimal digits (fullwidth `１`, for one). These are not modelled, because the stripped output of `hex_string` never contains them.
- Device properties have fixed types: `Address` is a string and `ManufacturerData` maps 16-bit keys to byte strings. Property maps of other interfaces use the same record type, because the handler never reads them.
- Set iteration order in `clean_beacons` is arbitrary in Python, and the model picks any remaining element.
