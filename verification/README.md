# BresserWeatherSensorTTN core, modelled in Dafny

BresserWeatherSensorTTN is LoRaWAN node firmware. It receives data from Bresser 868 MHz
weather sensors, reads local BLE thermometers and sends everything to The Things Network.
Between uplinks the board sleeps.

This project models four parts of that system and proves what they guarantee.

- **The BLE match engine** (`src/BleSensors/BleSensors.cpp`, `BleSensors.h`) is the
  `BleSensors` object and its scan callback. Each advertisement is looked up in the table of
  known sensor addresses. A decoded reading goes into that sensor's slot. After each
  callback, the scan stops once the callback counter reaches the table length.
  - Module `Ble` (`ble_sensors.dfy`) holds the classes and methods.
  - Module `BleSpec` (`ble_spec.dfy`) holds the value-level specification: one callback
    step, a scan as a sequence of steps, and the hex text of service data. It also holds the
    lemmas about them.
- **The payload decoder** (`ttn_decoder_fp_v6.js`) is the TTN uplink formatter. Module
  `TtnDecoder` (`ttn_decoder.dfy`) models:
  - `bytesToInt` and the temperature digit-negation loop as methods;
  - the fixed-width readers, `bitmap`, `rawfloat` and the generic `decode(bytes, mask,
    names)` as functions;
  - the active 26-byte layout of `ttn_decoder_fp` as `TtnDecoderFp`.
- **The decoder generator** (`scripts/generate_decoder.py`) turns the preprocessor's
  `#define` lines into the `decode(...)` call of the formatter. Module `DecoderGenerator`
  (`generate_decoder.dfy`) models line normalisation, feature collection, the Python
  dictionary literal (including its repeated keys) and the emitted text.
- **The RP2040 sleep helper** (`src/pico_rtc/pico_rtc_utils.cpp`) covers the
  `datetime_t`/`struct tm` converters and `pico_sleep`.
  - Module `PicoRtc` (`pico_rtc.dfy`) holds them, with a `Board` class whose RTC and event
    trace `pico_sleep` updates.
  - Module `Calendar` (`calendar.dfy`) is the proleptic-Gregorian calendar that stands in
    for the C library's `mktime` and `localtime_r`.

Module `Common` (`common.dfy`) holds `Option`, `Result`, `Byte`, `Pow2` and a few sequence
facts.

Where the source's own comments and its code disagree, the model follows the code:

- The callback counter `m_devices_found` is documented as the number of known devices found
  (`BleSensors.cpp:55`), and the early stop as happening once all known devices have been
  found (`BleSensors.cpp:132`). The code counts reports, not devices: the counter is
  incremented on **every** successful decode of a known address (`BleSensors.cpp:128`). The
  early stop therefore compares the number of successful reports with the table length. Two reports
  from the same sensor can stop a scan of two sensors before the second one is heard; see
  `BleSpec.RepeatedReportStopsScan`.
- `getData` returns `0` (`BleSensors.cpp:179`), not the number of sensors matched. It
  returns only after the scan has ended, because `start(duration, false)` blocks while the
  radio delivers the callbacks (`BleSensors.cpp:177`).

## Model

| member | source | states |
|---|---|---|
| Ble.BleScan.constructor | src/BleSensors/BleSensors.cpp:161 | a fresh scan object is stopped, has no duration and buffers no results |
| Ble.BleScan.Start | src/BleSensors/BleSensors.cpp:177 | the scan is running with the requested duration |
| Ble.BleScan.Stop | src/BleSensors/BleSensors.cpp:135 | the scan is stopped |
| Ble.BleScan.ClearResults | src/BleSensors/BleSensors.h:88-90 | the scan's result buffer is empty |
| Ble.FindAddress | src/BleSensors/BleSensors.cpp:76-82 | the address is found iff it is in the table; the index is the first position holding exactly that address, or the table length when it is absent |
| Ble.ConvertServiceData | src/BleSensors/BleSensors.cpp:57-63 | the text is the two-lower-case-hex-digits-per-byte rendering `Hex` of the service data, twice as long as the data |
| Ble.AdvertisedDeviceCallbacks.constructor | src/BleSensors/BleSensors.cpp:165-170 | the callback object shares the scan, the address table and the store it was given, and its counter starts at 0 |
| Ble.AdvertisedDeviceCallbacks.OnResult | src/BleSensors/BleSensors.cpp:65-137 | the store, the counter and the scan's stopped flag after the callback are exactly one `BleSpec.Step` from those before it |
| Ble.BleSensors.constructor | src/BleSensors/BleSensors.h:74-77 | the table is kept and the store has one zero-initialised, invalid slot per known address |
| Ble.BleSensors.Begin | src/BleSensors/BleSensors.h:82-83 | nothing changes |
| Ble.BleSensors.ClearScanResults | src/BleSensors/BleSensors.h:88-90 | the scan's result buffer is emptied and the sensor data is untouched |
| Ble.BleSensors.ResetData | src/BleSensors/BleSensors.cpp:141-146 | every slot is marked invalid, keeping its other fields, and nothing else changes |
| Ble.BleSensors.GetData | src/BleSensors/BleSensors.cpp:151-180 | it returns 0 after the blocking scan: the store and the radio's stopped flag are those of `BleSpec.Scan` from a fresh callback object over the advertisements received, and the radio keeps the requested duration |
| BleSpec.IndexOf | src/BleSensors/BleSensors.cpp:76-82 | the index is at most the table length; below it, it holds the address and no earlier entry does |
| BleSpec.IndexOfFound | src/BleSensors/BleSensors.cpp:76-82 | the lookup lands inside the table iff the address is in it |
| BleSpec.IndexOfDistinct | src/BleSensors/BleSensors.cpp:76-82 | in a table without repeats, entry i is found at index i |
| BleSpec.Step | src/BleSensors/BleSensors.cpp:65-137 | one callback keeps one slot per known address; its effect is stated by the four lemmas below |
| BleSpec.StepUnknown | src/BleSensors/BleSensors.cpp:76-82 | an advertisement from an unknown address changes no slot and not the counter |
| BleSpec.StepFailedDecode | src/BleSensors/BleSensors.cpp:109 | an advertisement that does not decode changes no slot and not the counter, even from a known address |
| BleSpec.StepMatched | src/BleSensors/BleSensors.cpp:109-128 | a decoded advertisement from a known address overwrites exactly the slot of the first matching table entry, leaves every other slot, and adds one to the counter |
| BleSpec.StepStops | src/BleSensors/BleSensors.cpp:133-136 | after a callback the scan is stopped iff it already was or the counter equals the table length; with an empty table the first callback stops it |
| BleSpec.Run | src/BleSensors/BleSensors.cpp:65-137 | a scan, as callbacks in arrival order, keeps one slot per known address |
| BleSpec.RunCounter | src/BleSensors/BleSensors.cpp:128 | the counter grows by the number of successfully decoded advertisements from known addresses, repeats included |
| BleSpec.RunStopped | src/BleSensors/BleSensors.cpp:133-136 | a scan ends stopped iff it started stopped, or at least one callback ran and the counter reached the table length |
| BleSpec.RunStaysStopped | src/BleSensors/BleSensors.cpp:133-136 | once stopped, a scan stays stopped |
| BleSpec.ScanStopped | src/BleSensors/BleSensors.cpp:128-136 | from a fresh callback object, the scan stops iff some callback ran and the successful known reports reach the table length |
| BleSpec.RunSlot | src/BleSensors/BleSensors.cpp:119-123 | each slot after a scan holds the last successful reading for its address (last write wins), or is unchanged when there was none |
| BleSpec.LastForSome | src/BleSensors/BleSensors.cpp:109-123 | a last reading exists iff some advertisement hit the slot, and it is one of those advertisements' readings |
| BleSpec.AllReportedAllValid | src/BleSensors/BleSensors.cpp:119-123 | with distinct addresses, if every sensor reports at least once and every reading has a positive battery level, every slot ends valid |
| BleSpec.Scan | src/BleSensors/BleSensors.cpp:65-137 | the blocking scan keeps one slot per known address; `ScanIsRunPrefix` relates it to `Run` |
| BleSpec.ScanIsRunPrefix | src/BleSensors/BleSensors.cpp:133-136 | the blocking scan runs the callbacks of the shortest prefix of the advertisements after which the scan is stopped, or of all of them when it never stops |
| BleSpec.TwoSensorScan | src/BleSensors/BleSensors.cpp:76-136 | with two known sensors, an unknown advertiser changes nothing, the two sensors' reports fill both slots and stop the scan, and a later report from the first sensor is never delivered |
| BleSpec.RepeatedReportStopsScan | src/BleSensors/BleSensors.cpp:128-136 | two reports from the first of two sensors stop the scan with counter 2 while the second sensor's slot is still invalid |
| BleSpec.InvalidatedAt | src/BleSensors/BleSensors.cpp:141-146 | invalidation keeps the number of slots and clears only the valid flag of each |
| BleSpec.InvalidatedIdempotent | src/BleSensors/BleSensors.cpp:141-146 | invalidating twice is the same as invalidating once |
| BleSpec.HexDigit | src/BleSensors/BleSensors.cpp:60 | a nibble is shown as one of `0123456789abcdef` |
| BleSpec.HexValue | src/BleSensors/BleSensors.cpp:60 | reading a hex digit back gives a nibble below 16 |
| BleSpec.HexPair | src/BleSensors/BleSensors.cpp:60 | `%.2x` renders a byte as exactly two characters |
| BleSpec.HexPairDigits | src/BleSensors/BleSensors.cpp:60 | both characters of a byte's pair are lower-case hex digits |
| BleSpec.HexPairValue | src/BleSensors/BleSensors.cpp:60 | the two digits of a pair give the byte back, high nibble first |
| BleSpec.HexLength | src/BleSensors/BleSensors.cpp:58-61 | the text has two characters per byte |
| BleSpec.HexSnoc | src/BleSensors/BleSensors.cpp:60 | writing the next byte's pair after the text of a prefix gives the text of the longer prefix |
| BleSpec.HexPrefixStep | src/BleSensors/BleSensors.cpp:60 | one more byte of data appends exactly its pair to the text |
| BleSpec.HexAt | src/BleSensors/BleSensors.cpp:60 | byte i is rendered at characters 2i and 2i+1 |
| BleSpec.HexLowerCase | src/BleSensors/BleSensors.cpp:57-63 | every character of the text is a lower-case hex digit |
| BleSpec.HexAppend | src/BleSensors/BleSensors.cpp:57-63 | the text of concatenated data is the concatenation of the texts |
| BleSpec.UnhexPair | src/BleSensors/BleSensors.cpp:60 | parsing a leading pair recovers its byte and goes on with the rest |
| BleSpec.UnhexHex | src/BleSensors/BleSensors.cpp:57-63 | the text determines the data: parsing it gives back the bytes |
| TtnDecoder.ToUint32 | ttn_decoder_fp_v6.js:110-113 | the unsigned 32-bit view of a number is below 2^32 and is the number itself when that is in range |
| TtnDecoder.ToInt32 | ttn_decoder_fp_v6.js:8 | the signed 32-bit result of a bitwise operator is in range, has the same low 32 bits as the number, and equals non-negative numbers below 2^31 |
| TtnDecoder.OrBits | ttn_decoder_fp_v6.js:8 | bitwise or of n-bit values is an n-bit value |
| TtnDecoder.OrBitsComm | ttn_decoder_fp_v6.js:110 | bitwise or is commutative |
| TtnDecoder.OrBitsZero | ttn_decoder_fp_v6.js:8 | or with 0 leaves a value unchanged |
| TtnDecoder.OrBitsDisjoint | ttn_decoder_fp_v6.js:8 | or of a value with a multiple of a higher power of two is their sum |
| TtnDecoder.BytesToInt | ttn_decoder_fp_v6.js:5-11 | the loop computes the or-accumulation of shifted bytes; for at most four bytes that is the little-endian value read as a signed 32-bit integer |
| TtnDecoder.LittleEndianBound | ttn_decoder_fp_v6.js:5-11 | n bytes little-endian are below 2^(8n) |
| TtnDecoder.IntOf | ttn_decoder_fp_v6.js:5-11 | up to three bytes give their plain little-endian value |
| TtnDecoder.ShiftByte | ttn_decoder_fp_v6.js:8 | a byte shifted by 0, 8, 16 or 24 has the unsigned value byte·2^(8k) |
| TtnDecoder.AccumulatedLittleEndian | ttn_decoder_fp_v6.js:5-11 | the or-accumulation of up to four bytes is their little-endian value as a signed 32-bit integer |
| TtnDecoder.Signed32Value | ttn_decoder_fp_v6.js:46-52 | four bytes give their two's-complement value, negative iff the top byte is at least 0x80 |
| TtnDecoder.LittleEndian1 | ttn_decoder_fp_v6.js:21-27 | one byte is its own value |
| TtnDecoder.LittleEndian2 | ttn_decoder_fp_v6.js:29-35 | two bytes give low + 256·high |
| TtnDecoder.LittleEndian4 | ttn_decoder_fp_v6.js:46-52 | four bytes give their weighted sum, least significant first |
| TtnDecoder.ReadUint8 | ttn_decoder_fp_v6.js:21-27 | fails unless given exactly one byte, then gives that byte |
| TtnDecoder.ReadUint16 | ttn_decoder_fp_v6.js:29-35 | fails unless given exactly two bytes, then gives their little-endian value |
| TtnDecoder.ReadUint32 | ttn_decoder_fp_v6.js:46-52 | fails unless given exactly four bytes, then gives their signed 32-bit value, negative iff the last byte's top bit is set |
| TtnDecoder.ReadUnixtime | ttn_decoder_fp_v6.js:13-19 | fails unless given exactly four bytes, then agrees with `uint32` |
| TtnDecoder.ReadUint16Fp1 | ttn_decoder_fp_v6.js:37-44 | fails unless given exactly two bytes, then gives the number of tenths that `uint16` reads |
| TtnDecoder.ReadHumidity | ttn_decoder_fp_v6.js:92-100 | fails unless given exactly two bytes, then gives the number of hundredths that `uint16` reads |
| TtnDecoder.ReadLatLng | ttn_decoder_fp_v6.js:54-64 | fails unless given exactly eight bytes, then gives the two signed 32-bit halves in millionths |
| TtnDecoder.Unpack | ttn_decoder_fp_v6.js:111-113 | the sign is ±1, the exponent 8 bits, the significand 24 bits, with the hidden bit set iff the exponent is non-zero and doubled when it is zero |
| TtnDecoder.ReadRawFloat | ttn_decoder_fp_v6.js:104-117 | fails unless given exactly four bytes, then gives the fields of the little-endian 32-bit pattern |
| TtnDecoder.RawFloatBits | ttn_decoder_fp_v6.js:110 | the or of the shifted bytes has the little-endian value as its unsigned view |
| TtnDecoder.RawBitsSum | ttn_decoder_fp_v6.js:110 | the four-byte or expression equals the weighted byte sum |
| TtnDecoder.RawBitsMid | ttn_decoder_fp_v6.js:110 | the upper three bytes, or-ed in place, give their weighted sum |
| TtnDecoder.RawBitsHigh | ttn_decoder_fp_v6.js:110 | the upper two bytes, or-ed in place, give their weighted sum |
| TtnDecoder.OrBelow | ttn_decoder_fp_v6.js:110 | or-ing a high part with a lower part that does not overlap adds them |
| TtnDecoder.OrAbove | ttn_decoder_fp_v6.js:110 | the same, with the parts in the other order |
| TtnDecoder.UnpackBytes | ttn_decoder_fp_v6.js:111-113 | sign, exponent and significand, written out in terms of the four bytes |
| TtnDecoder.UnpackSum | ttn_decoder_fp_v6.js:111-113 | the same, for the byte sum |
| TtnDecoder.RawFloatFields | ttn_decoder_fp_v6.js:104-117 | `rawfloat` on four bytes yields sign, significand and exponent as functions of the bytes |
| TtnDecoder.RawFloatSign | ttn_decoder_fp_v6.js:111 | the sign is negative iff the last byte's top bit is set |
| TtnDecoder.ToBits | ttn_decoder_fp_v6.js:71-72 | the binary digit string has exactly the requested width |
| TtnDecoder.FromBitsBound | ttn_decoder_fp_v6.js:83 | n digits parse to a value below 2^n |
| TtnDecoder.FromToBits | ttn_decoder_fp_v6.js:71-83 | padding to width n and parsing back gives the value, for values below 2^n |
| TtnDecoder.FromBitsAppend | ttn_decoder_fp_v6.js:71-83 | the value of joined digit strings is the first shifted past the second, plus the second |
| TtnDecoder.FirstBit | ttn_decoder_fp_v6.js:70 | the first digit is set iff the value is at least half the range |
| TtnDecoder.InvertValue | ttn_decoder_fp_v6.js:74 | flipping all n digits gives 2^n − 1 − value |
| TtnDecoder.FlipValue | ttn_decoder_fp_v6.js:76-79 | setting one digit changes the value by that digit's weight |
| TtnDecoder.ToBitsAt | ttn_decoder_fp_v6.js:124 | digit k of the padded string is bit n−1−k of the value |
| TtnDecoder.ToBitsEvery | ttn_decoder_fp_v6.js:124 | the same, for every position at once |
| TtnDecoder.TemperatureValue | ttn_decoder_fp_v6.js:66-90 | the reader fails unless given exactly two bytes, and its values lie within ±32767 hundredths |
| TtnDecoder.TemperatureTwosComplement | ttn_decoder_fp_v6.js:66-90 | big-endian bytes read as 16-bit two's complement, for every input but 0x8000 |
| TtnDecoder.TemperatureMinIsZero | ttn_decoder_fp_v6.js:73-86 | the pattern 0x8000 reads as 0, because the negated digits wrap to zero |
| TtnDecoder.HighBitSet | ttn_decoder_fp_v6.js:70 | the mask test `& 0x80` holds iff the byte is at least 0x80 |
| TtnDecoder.TwoByteBits | ttn_decoder_fp_v6.js:70-72 | the 16 digits of the two bytes parse to 256·first + second, and the first digit is the sign bit |
| TtnDecoder.CarryStep | ttn_decoder_fp_v6.js:75-80 | one loop step either ends the carry by setting a digit (value +1 over the inverted string) or clears it and moves the carry up |
| TtnDecoder.CarryStops | ttn_decoder_fp_v6.js:75-80 | a carry that is absorbed yields the magnitude of the negative value |
| TtnDecoder.CarryRunsOut | ttn_decoder_fp_v6.js:75-80 | a carry that runs past the first digit yields the same magnitude |
| TtnDecoder.NegateDigits | ttn_decoder_fp_v6.js:73-82 | inverting the digits and adding one with the loop's carry gives the magnitude 2^16 − value, or 0 for 0x8000 |
| TtnDecoder.ReadTemperature | ttn_decoder_fp_v6.js:66-90 | the method computes `TemperatureValue`, including the two-byte length check |
| TtnDecoder.TemperatureDigits | ttn_decoder_fp_v6.js:70-86 | the method's digit string has width 16, its first digit is the sign bit, and the reading is that value or minus its negated magnitude |
| TtnDecoder.TemperatureRaw | ttn_decoder_fp_v6.js:83-86 | the reading in terms of the raw 16-bit value and its sign |
| TtnDecoder.AssignAt | ttn_decoder_fp_v6.js:131-134 | the object built key by key has exactly the listed keys; with distinct keys, key i holds value i |
| TtnDecoder.ReadBitmap | ttn_decoder_fp_v6.js:119-136 | fails unless given exactly one byte |
| TtnDecoder.BitmapNamesDistinct | ttn_decoder_fp_v6.js:130 | the eight flag names are distinct |
| TtnDecoder.BitmapFlags | ttn_decoder_fp_v6.js:119-135 | a byte gives exactly the eight named flags, the k-th being bit 7−k (most significant first) |
| TtnDecoder.FlagsOf | ttn_decoder_fp_v6.js:124-134 | pairing eight distinct names with the padded binary digits of a byte gives flag k = bit 7−k |
| TtnDecoder.BitmapEnds | ttn_decoder_fp_v6.js:130 | `res2` is the top bit and `ws_batt_ok` the bottom bit |
| TtnDecoder.TopBit | ttn_decoder_fp_v6.js:124 | the top bit of a (p+1)-bit value is set iff the value is at least 2^p |
| TtnDecoder.ReadChecked | ttn_decoder_fp_v6.js:13-136 | every reader fails exactly when the byte count differs from its `BYTES` |
| TtnDecoder.ReadWidth | ttn_decoder_fp_v6.js:13-136 | a reader succeeds iff it is given exactly its width |
| TtnDecoder.Slice | ttn_decoder_fp_v6.js:151 | `slice` returns the requested range when it lies inside the buffer, and never more than its length |
| TtnDecoder.ReadAll | ttn_decoder_fp_v6.js:149-153 | when every field reads, there is one value per mask entry |
| TtnDecoder.KeyFor | ttn_decoder_fp_v6.js:155 | a present, non-empty name is the key |
| TtnDecoder.OffsetStep | ttn_decoder_fp_v6.js:151 | the running offset of field k is the first field's width plus the offset within the rest |
| TtnDecoder.OffsetBound | ttn_decoder_fp_v6.js:140-151 | every field lies within the mask length |
| TtnDecoder.ReadAllOk | ttn_decoder_fp_v6.js:143-153 | when the buffer covers the mask, every field reads |
| TtnDecoder.ReadAllField | ttn_decoder_fp_v6.js:149-153 | field k is its reader applied to exactly the bytes at its running offset |
| TtnDecoder.DecodeWith | ttn_decoder_fp_v6.js:138-158 | a buffer shorter than the mask's widths throws, and a result that is returned has exactly the field keys (names, or indexes as a fallback) |
| TtnDecoder.Decode | ttn_decoder_fp_v6.js:138-158 | with this file's readers, `decode` throws iff the buffer is shorter than the sum of the mask's widths |
| TtnDecoder.DecodeFails | ttn_decoder_fp_v6.js:140-145 | `decode` throws iff the buffer is shorter than the sum of the mask's widths |
| TtnDecoder.ReadAllFields | ttn_decoder_fp_v6.js:149-153 | every field is its reader applied to its own slice of the buffer |
| TtnDecoder.DecodeFields | ttn_decoder_fp_v6.js:138-158 | with distinct non-empty names, the result has exactly those keys, and each name maps to its reader's value on its slice |
| TtnDecoder.ReadAllTrailing | ttn_decoder_fp_v6.js:149-153 | bytes after the mask do not change the fields |
| TtnDecoder.DecodeTrailing | ttn_decoder_fp_v6.js:138-158 | trailing bytes past the mask length are ignored |
| TtnDecoder.KeyFallback | ttn_decoder_fp_v6.js:147-155 | a missing or empty name falls back to the field's index written in decimal |
| TtnDecoder.ActiveNamesDistinct | ttn_decoder_fp_v6.js:202-205 | the fourteen output names of the active layout are distinct |
| TtnDecoder.ActiveMaskLength | ttn_decoder_fp_v6.js:198-200 | the active mask is 26 bytes long |
| TtnDecoder.WeatherMaskLength | ttn_decoder_fp_v6.js:198-199 | the first seven readers, `bitmap` to `rawfloat`, take 14 bytes |
| TtnDecoder.AuxMaskLength | ttn_decoder_fp_v6.js:199-200 | the remaining seven readers take 12 bytes |
| TtnDecoder.MaskLengthAppend | ttn_decoder_fp_v6.js:140-142 | the length of joined masks is the sum of their lengths |
| TtnDecoder.TtnDecoderFp | ttn_decoder_fp_v6.js:196-208 | `ttn_decoder_fp` fails iff the payload is shorter than 26 bytes |
| TtnDecoder.ActiveLayout | ttn_decoder_fp_v6.js:196-206 | on 26 bytes or more it yields exactly the fourteen named fields, each its reader on its own slice |
| DecoderGenerator.RemovePrefix | scripts/generate_decoder.py:111 | the prefix is cut when present, otherwise the line is unchanged |
| DecoderGenerator.LStripSpec | scripts/generate_decoder.py:114 | `lstrip` removes exactly a leading run of white space, leaving a suffix that starts with non-space |
| DecoderGenerator.RStripSpec | scripts/generate_decoder.py:117 | `rstrip` removes exactly a trailing run of white space, leaving a prefix that ends with non-space |
| DecoderGenerator.StripSpec | scripts/generate_decoder.py:117 | a stripped line is empty or neither starts nor ends with white space |
| DecoderGenerator.DropTrailingTokenSpec | scripts/generate_decoder.py:121 | the trailing run of non-space characters is removed, leaving a prefix that is empty or ends with white space |
| DecoderGenerator.DropLastWordSplit | scripts/generate_decoder.py:121 | the regular expression leaves a one-word line alone, and otherwise cuts the last white-space run and the word after it |
| DecoderGenerator.Normalise | scripts/generate_decoder.py:111-121 | a normalised line is empty or neither starts nor ends with white space |
| DecoderGenerator.NormaliseStrip | scripts/generate_decoder.py:111-117 | `#define <text><spaces>` is reduced to the text |
| DecoderGenerator.NormaliseFlag | scripts/generate_decoder.py:111-121 | `#define NAME` with any trailing white space gives `NAME` |
| DecoderGenerator.NormaliseValue | scripts/generate_decoder.py:111-121 | `#define NAME VALUE` gives `NAME` |
| DecoderGenerator.DropValue | scripts/generate_decoder.py:121 | `NAME VALUE` loses its value |
| DecoderGenerator.RStripSpaces | scripts/generate_decoder.py:117 | trailing white space after a non-space end is all that `rstrip` removes |
| DecoderGenerator.DropTrailingWord | scripts/generate_decoder.py:121 | more non-space characters at the end are removed with the last token |
| DecoderGenerator.Names | scripts/generate_decoder.py:110-121 | each input line is normalised, in order |
| DecoderGenerator.Kept | scripts/generate_decoder.py:124-125 | the filter keeps at most the lines it is given |
| DecoderGenerator.CollectFeatures | scripts/generate_decoder.py:109-125 | the input loop builds the list `Collected` |
| DecoderGenerator.KeptMembers | scripts/generate_decoder.py:124-125 | a name is kept iff it is a known feature and occurs among the names |
| DecoderGenerator.CollectedMembers | scripts/generate_decoder.py:109-125 | a name is collected iff it is a known feature and some input line normalises to it |
| DecoderGenerator.Put | scripts/generate_decoder.py:64-93 | a dictionary store keeps keys unique; a known key keeps its position and takes the new value, and a new key is appended |
| DecoderGenerator.TailUnique | scripts/generate_decoder.py:64-93 | dropping the first item keeps keys unique |
| DecoderGenerator.ConsUnique | scripts/generate_decoder.py:64-93 | prefixing an item with a fresh key keeps keys unique |
| DecoderGenerator.BuildDict | scripts/generate_decoder.py:64-93 | evaluating a dictionary literal yields unique keys |
| DecoderGenerator.Selected | scripts/generate_decoder.py:131-132 | the emitted entries are at most the dictionary's |
| DecoderGenerator.SelectedMembers | scripts/generate_decoder.py:132 | an entry is emitted iff it is in the dictionary and its condition is empty or listed |
| DecoderGenerator.BlockStep | scripts/generate_decoder.py:133-134 | each emitted entry appends one indented line to the types block and one to the keys block |
| DecoderGenerator.EmitFields | scripts/generate_decoder.py:131-134 | the output loop produces the types and keys blocks of the selected entries, in dictionary order |
| DecoderGenerator.GenerateDecoder | scripts/generate_decoder.py:109-141 | the printed text is header, types block, `],`, keys block and footer for the entries the input's features enable |
| DecoderGenerator.GeneratorDict | scripts/generate_decoder.py:64-93 | the literal evaluates to its 26 distinct keys in first-occurrence order |
| DecoderGenerator.RepeatsOverwrite | scripts/generate_decoder.py:77-80 | the repeated `indoor_*` keys keep their first position but take the `MITHERMOMETER_EN` values |
| DecoderGenerator.Overwrite | scripts/generate_decoder.py:77-80 | two repeated keys after unique ones overwrite those entries in place |
| DecoderGenerator.PutAgain | scripts/generate_decoder.py:77-80 | a repeated key replaces its entry in place |
| DecoderGenerator.FirstKeysUnique | scripts/generate_decoder.py:65-78 | the keys up to the first repetition are distinct |
| DecoderGenerator.LaterKeysUnique | scripts/generate_decoder.py:81-92 | the keys after the repetition are distinct |
| DecoderGenerator.LaterKeysFresh | scripts/generate_decoder.py:65-92 | no later key occurs among the earlier ones |
| DecoderGenerator.BuildDictStep | scripts/generate_decoder.py:64-93 | the literal is evaluated one store at a time, left to right |
| DecoderGenerator.PutOld | scripts/generate_decoder.py:79-80 | storing an existing key overwrites its entry in place |
| DecoderGenerator.BuildDictUnique | scripts/generate_decoder.py:64-93 | a literal without repeats evaluates to itself |
| DecoderGenerator.BuildDictFresh | scripts/generate_decoder.py:81-92 | entries with fresh keys are appended in order |
| DecoderGenerator.SelectedAppend | scripts/generate_decoder.py:131-132 | selection distributes over concatenation |
| DecoderGenerator.SelectedSameFeatures | scripts/generate_decoder.py:132 | only which features are listed matters, not their order or repeats |
| DecoderGenerator.UnconditionalFields | scripts/generate_decoder.py:66-73 | the eight unconditional fields are always emitted in order, right after `id` when `SENSORID_EN` is listed and first otherwise |
| DecoderGenerator.UnconditionalConds | scripts/generate_decoder.py:66-73 | `status_node` to `rain_mm` have no condition |
| DecoderGenerator.SelectedAll | scripts/generate_decoder.py:132 | unconditional entries are all emitted |
| DecoderGenerator.IndoorFields | scripts/generate_decoder.py:77-80 | the indoor fields are emitted with the `MITHERMOMETER_EN` condition, and `THEENGSDECODER_EN` alone enables nothing |
| DecoderGenerator.NoTheengsCond | scripts/generate_decoder.py:77-80 | no entry of the evaluated dictionary is conditioned on `THEENGSDECODER_EN` |
| DecoderGenerator.SelectedNoCond | scripts/generate_decoder.py:132 | features that no entry uses do not change the output |
| DecoderGenerator.NoLightning | scripts/generate_decoder.py:91-92 | the lightning fields are never emitted for any input, because their feature is not in the known list |
| DecoderGenerator.WithoutLightning | scripts/generate_decoder.py:91-92 | without `LIGHTNINGSENSOR_EN` only the first 24 entries can be emitted |
| DecoderGenerator.SelectedDrop | scripts/generate_decoder.py:132 | a tail of entries whose conditions are all unlisted adds nothing |
| DecoderGenerator.NotAFeature | scripts/generate_decoder.py:34-49 | `LIGHTNINGSENSOR_EN` is not a known feature |
| DecoderGenerator.Output | scripts/generate_decoder.py:137-141 | the printed text ends with the keys block, a newline and the footer `    );` with its newline |
| DecoderGenerator.KeysUnclosed | scripts/generate_decoder.py:137-141 | the output ends with the keys block and the footer, and no `]` appears there, so the key list is printed without a closing bracket |
| DecoderGenerator.OutputEnds | scripts/generate_decoder.py:137-141 | the printed text ends with the keys block followed by the footer |
| DecoderGenerator.KeyNamesPlain | scripts/generate_decoder.py:65-92 | no key name contains `]` |
| DecoderGenerator.BlockChars | scripts/generate_decoder.py:134 | a block of lines built from names without `]` contains no `]` |
| Calendar.YearLength | src/pico_rtc/pico_rtc_utils.cpp:49 | a year has 365 or 366 days |
| Calendar.MonthLength | src/pico_rtc/pico_rtc_utils.cpp:49 | months have 28 to 31 days, and February has 29 exactly in leap years |
| Calendar.MonthsMakeYear | src/pico_rtc/pico_rtc_utils.cpp:49 | the twelve months add up to the year |
| Calendar.DaysBeforeNextYear | src/pico_rtc/pico_rtc_utils.cpp:49 | the day count of the next year's start is this year's plus its length |
| Calendar.YearsInOrder | src/pico_rtc/pico_rtc_utils.cpp:55 | later years start after earlier years end |
| Calendar.MonthsInOrder | src/pico_rtc/pico_rtc_utils.cpp:55 | later months start after earlier months end |
| Calendar.YearOf | src/pico_rtc/pico_rtc_utils.cpp:55 | a day count is split into a year and a day within it, naming the same day |
| Calendar.MonthOf | src/pico_rtc/pico_rtc_utils.cpp:55 | a day of the year is split into a month and a day within it, naming the same day |
| Calendar.Weekday | src/pico_rtc/pico_rtc_utils.cpp:55 | the weekday is 0 to 6 |
| Calendar.Localtime | src/pico_rtc/pico_rtc_utils.cpp:55 | `localtime_r` gives every field in range: the day within its month's length, the day of year within the year, the weekday 0 to 6 and no daylight saving |
| Calendar.LocaltimeMktime | src/pico_rtc/pico_rtc_utils.cpp:49-55 | `localtime_r` yields a normalised date whose `mktime` is the original time, with consistent day of year and weekday |
| Calendar.YearOfUnique | src/pico_rtc/pico_rtc_utils.cpp:55 | the year split is unique |
| Calendar.MonthOfUnique | src/pico_rtc/pico_rtc_utils.cpp:55 | the month split is unique |
| Calendar.MktimeLocaltime | src/pico_rtc/pico_rtc_utils.cpp:49-55 | a normalised date survives `mktime` then `localtime_r`, with its day of year recomputed |
| Calendar.LocaltimeOfValid | src/pico_rtc/pico_rtc_utils.cpp:49-55 | the exact broken-down time `localtime_r` gives back for a normalised date |
| Calendar.MktimeDays | src/pico_rtc/pico_rtc_utils.cpp:49 | `mktime` counts the days since 1970 and the seconds of the day |
| Calendar.LocaltimeAt | src/pico_rtc/pico_rtc_utils.cpp:55 | the broken-down time of a given day and second of day |
| Calendar.ClockSplit | src/pico_rtc/pico_rtc_utils.cpp:55 | seconds of the day split back into hour, minute and second |
| Calendar.DaySplit | src/pico_rtc/pico_rtc_utils.cpp:55 | a time splits back into its day and its second of day |
| Calendar.LeapDayRollover | src/pico_rtc/pico_rtc_utils.cpp:49-55 | 20 s after 23:59:50 on 29 February is 00:00:10 on 1 March |
| Calendar.YearEndRollover | src/pico_rtc/pico_rtc_utils.cpp:49-55 | 10 s after 23:59:55 on 31 December is 00:00:05 on 1 January of the next year |
| PicoRtc.ToInt8 | src/pico_rtc/pico_rtc_utils.cpp:20-26 | storing into an `int8_t` keeps values in range and otherwise wraps modulo 256 |
| PicoRtc.ToInt16 | src/pico_rtc/pico_rtc_utils.cpp:25 | storing into an `int16_t` keeps values in range and otherwise wraps modulo 65536 |
| PicoRtc.DatetimeToTm | src/pico_rtc/pico_rtc_utils.cpp:5-16 | the fields `datetime_to_tm` does not write keep the values they had in `ti` |
| PicoRtc.TmToDatetime | src/pico_rtc/pico_rtc_utils.cpp:18-29 | a `struct tm` whose fields fit the narrow types is stored field by field, with the year offset by 1900 and the month by 1 |
| PicoRtc.DatetimeRoundTrip | src/pico_rtc/pico_rtc_utils.cpp:5-29 | converting a `datetime_t` to `struct tm` and back gives it back |
| PicoRtc.TmRoundTrip | src/pico_rtc/pico_rtc_utils.cpp:5-29 | a `struct tm` survives the trip through `datetime_t` iff its fields fit the narrow types |
| PicoRtc.YearsApart | src/pico_rtc/pico_rtc_utils.cpp:49-55 | each year has at least 365 days |
| PicoRtc.YearBetween | src/pico_rtc/pico_rtc_utils.cpp:55 | a time between the starts of two years lands on a year between them |
| PicoRtc.EpochInYear | src/pico_rtc/pico_rtc_utils.cpp:46-49 | the epoch time of a valid reading lies within its year |
| PicoRtc.WakeupLater | src/pico_rtc/pico_rtc_utils.cpp:46-58 | for a valid reading and any `unsigned` duration, the alarm is a well-formed date exactly `duration` seconds later, with its weekday, at most 137 years on; the old contents of `ti` play no part |
| PicoRtc.WakeupAt | src/pico_rtc/pico_rtc_utils.cpp:46-58 | the alarm is the calendar form of the reading's epoch time plus the duration |
| PicoRtc.LocalAlarm | src/pico_rtc/pico_rtc_utils.cpp:55-58 | a time within 138 years of a year in range converts to a well-formed alarm for that time |
| PicoRtc.EpochIgnoresScratch | src/pico_rtc/pico_rtc_utils.cpp:45-49 | `mktime` of the converted reading does not depend on the uninitialised `struct tm` |
| PicoRtc.WakeupBound | src/pico_rtc/pico_rtc_utils.cpp:49-52 | reading plus an `unsigned` duration stays within the 138 years from the reading's year |
| PicoRtc.NarrowExact | src/pico_rtc/pico_rtc_utils.cpp:58 | a normalised `struct tm` with a year and weekday in range converts into `datetime_t` without loss, at the same epoch time |
| PicoRtc.LeapDayWakeup | src/pico_rtc/pico_rtc_utils.cpp:46-58 | sleeping 20 s from 2024-02-29 23:59:50 sets the alarm to 2024-03-01 00:00:10 |
| PicoRtc.YearEndWakeup | src/pico_rtc/pico_rtc_utils.cpp:46-58 | sleeping 10 s from 2023-12-31 23:59:55 sets the alarm to 2024-01-01 00:00:05 |
| PicoRtc.SleepEvents | src/pico_rtc/pico_rtc_utils.cpp:39-84 | the reading and the alarm are printed first, and the USB device is detached iff the build uses TinyUSB |
| PicoRtc.SleepOrder | src/pico_rtc/pico_rtc_utils.cpp:62-82 | the chip sleeps once, until the printed alarm, after every serial port and USB is closed, and the clocks are restarted only after it |
| PicoRtc.Board.constructor | src/pico_rtc/pico_rtc_utils.cpp:39-41 | a board starts with its RTC reading, its build option and an empty trace |
| PicoRtc.Board.PicoSleep | src/pico_rtc/pico_rtc_utils.cpp:39-84 | the RTC ends at the alarm (`Wakeup` of the old reading), and the trace grows by exactly the events of one sleep |

## Left out

- NimBLE itself is not modelled: device initialisation, duplicate filtering, scan interval, window, active mode and maximum results (`BleSensors.cpp:157-176`). `Ble.BleScan` keeps only the stopped flag, the duration and the result buffer.
- TheengsDecoder and the ArduinoJson document are not modelled. Each `BleSpec.Advertisement` carries the decoder's outcome as an `Option<Reading>`. The device name, manufacturer data, TX power and service data UUID are therefore not modelled; they only feed that decoder (`BleSensors.cpp:84-107`). Only the last service data entry reaches the document, and `Ble.ConvertServiceData` models how each entry is rendered.
- Logging (`log_v`, `log_d`, `log_i`) is not modelled. Neither is the debug serialisation at `BleSensors.cpp:110-114`, which has no effect on the state.
- Concurrency is not modelled. Callbacks run one at a time, each followed by its stop check, and the radio delivers none after `stop()`. `BleSpec.Run` describes any sequence of callbacks, stopped or not.
- Ble.BleSensors.GetData: the radio's timing is not modelled. The advertisements received within the duration are a parameter, and the duration elapsing is the end of that sequence. The callback object stays local to the call, so its counter is not part of the result. A duration of 0 makes NimBLE scan until `stop()`, so with fewer successful reports than table entries `getData` never returns; a finite sequence of advertisements cannot show that.
- The `float` temperature and humidity of a BLE reading are opaque `real`s, copied unchanged.
- Floating point in the payload decoder is not modelled. `uint16fp1`, `temperature`, `humidity` and `latLng` keep their values as scaled integers (tenths, hundredths, millionths). `rawfloat` keeps sign, significand and exponent (`FloatParts`) instead of `sign·m·2^(e−150)`.
- TtnDecoder.ReadUint16Fp1: returns the number of tenths, not the `toFixed(1)` string.
- TtnDecoder.ReadTemperature: returns hundredths, not the string `toFixed(1)` makes of t/100, which rounds to tenths.
- TtnDecoder.ReadHumidity: returns hundredths, not h/100.
- TtnDecoder.ReadLatLng: returns millionths, not the divided floats.
- TtnDecoder.ReadRawFloat: returns the bit fields, not the rounded decimal string.
- TtnDecoder.Decode: `module.exports` is not modelled, since exporting the readers does not change them. The readers are the closed `Reader` type, and every lemma about `decode` holds for any reader function meeting the length check (`Checked`).
- The `decodeUplink` wrapper (`ttn_decoder_fp_v6.js:211-219`) is not modelled: it only puts the result of `ttn_decoder_fp` under `data.bytes` in an envelope with empty `warnings` and `errors`.
- TtnDecoder.DecodeWith: returns a `map`, so the key order of the JavaScript object (insertion order, with integer-like keys first) is not modelled.
- A `names` argument that is left out (`names || []`) is modelled by passing `[]`. A JavaScript key that repeats in `names` overwrites; the lemmas about the keys assume distinct names, as in the active layout.
- The generator's reading of standard input and its `print` calls are not modelled. `GenerateDecoder` takes the lines and returns the text, each `print` contributing its argument and a newline.
- DecoderGenerator.IsSpace: treats only ASCII white space as space, while Python's `str.isspace` and `\s` also accept other Unicode spaces.
- The `#` comments and the `list` debug print of the generator are not modelled.
- `print_dt` and `print_tm` are not modelled. The trace records `Printed(heading, datetime)` instead of the formatted text.
- The hardware effects of sleep are not modelled: the crystal oscillator switch, the dormant state and the clock re-initialisation. `pico_sleep` is an ordered event trace, and the RTC is set to the alarm it slept until.
- Calendar.Mktime: time zones and daylight saving are not modelled, and `isdst` is ignored. Both conversions use UTC, as a board with no `TZ` set does. The `-1` error return of `mktime` and the width of `time_t` are not modelled.
- PicoRtc.WakeupLater: assumes a reading of a set clock (`ValidDatetime`); an RTC that was never set is a precondition of `pico_sleep` that the source does not check.
- `rtc_get_datetime` is the `rtc` field of `Board`; `sleep_goto_sleep_until` is the `SleepUntil` event.
- `pico_rtc_utils.h` and the configuration headers are not modelled. They declare the functions and set build options, and contain no logic.
