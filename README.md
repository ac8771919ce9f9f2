# DHT11/21/22 sample engine

A Dafny model of the sample engine of the Android Things DHTxx driver (`Dhtxx.java`). The engine does four things:

- It throttles repeated reads.
- It counts the pulses of the sensor's reply on the data line.
- It decodes the 80 pulse counts into 40 bits, packed most significant bit first into the five signed bytes of `mData`.
- It tests the checksum and converts the bytes into temperature and humidity readings for each sensor variant.

Modules:

- `JavaBytes` (java_bytes.dfy): Java's signed `byte` (`JByte`), the narrowing cast `(byte)`, `& 0xFF` and `| 1`.
- `Pulses` (pulses.dfy): the data line as a sequence of sampled levels, and `expectPulse` as a function of them.
- `Frames` (frames.dfy): packing bits into bytes, reading them back, and the checksum test, as written and as intended.
- `Protocol` (protocol.dfy): one transaction of `readSample` as a function of the samples. It covers the acknowledgement pulses, the 80 counts, the decoding loop and the checksum.
- `Readings` (readings.dfy): the per-variant conversions of `readTemperature` and `readHumidity`, as written and as intended.
- `Waveforms` (waveforms.dfy): the reply a sensor sends for a frame. It proves that a transaction reads the frame back.
- `Driver` (driver.dfy): the `Dhtxx` object as a class.
  - Its fields are `mData` (an `array<JByte>`), `mLastReadTime` and `mLastResult`.
  - Its methods are the loops of `expectPulse` and `readSample` and the three public readers.
  - The `...AsWritten` methods are `readSample` and the readers as they behave when `wait` throws.
  - Each method is proved against the functions above.

The GPIO line is a `Gpio` object with a fixed record of sampled levels and a cursor. `getValue()` returns the next sample; past the end of the record the line reads high, as the pull-up holds it. The clock is a `now` parameter. Readings are whole tenths of a degree Celsius or of a percent, and `None` stands for `Float.NaN`.

The cycle bound `mMaxCycles` is a constructor parameter. The code never assigns it, so as written it is 0; see Findings.

The driver's methods model the code as written, including the signed-byte arithmetic, with one exception: `ReadSample` and the three readers treat the `wait(...)` calls of lines 155-174 as pauses that return. As written, those calls throw (see Findings), and the `...AsWritten` methods of `Dhtxx` model that. The corrected definitions sit beside the as-written ones, in `Frames`, `Readings` and `Waveforms`, each with the intended property proved.

## Model

| member | source | states |
|---|---|---|
| Driver.Dhtxx.constructor | driver/src/main/java/com/vginert/android/things/dhtdriver/Dhtxx.java:28-34 | The initial state: `mData` all zero, last read time -2000, last result false. No non-forced call at any time of 0 or later is throttled. |
| Driver.Dhtxx.ExpectPulse | driver/src/main/java/com/vginert/android/things/dhtdriver/Dhtxx.java:240-248 | The counting loop returns exactly `Pulses.ExpectPulse` on the unread samples, and the cursor advances to where that function says. |
| Driver.Dhtxx.ReadPair | driver/src/main/java/com/vginert/android/things/dhtdriver/Dhtxx.java:198-201 | One pass of the reading loop extends the measured prefix of `cycles` and the cursor from `n` pairs to `n + 1` pairs of `Measure`. |
| Driver.Dhtxx.ReadCycles | driver/src/main/java/com/vginert/android/things/dhtdriver/Dhtxx.java:198-201 | The 80-entry array holds exactly the counts of 40 low/high pulse pairs measured back to back, and the cursor stops where the last pulse ended. |
| Driver.Dhtxx.ShiftBitIn | driver/src/main/java/com/vginert/android/things/dhtdriver/Dhtxx.java:213-218 | `mData[k] <<= 1`, then `|= 1` for a one bit, changes byte k to `ShiftIn` of it and leaves the other bytes alone. |
| Driver.Dhtxx.PackPair | driver/src/main/java/com/vginert/android/things/dhtdriver/Dhtxx.java:206-218 | One pass of the decoding loop: a pair with a zero count ends decoding as `DecodePairs` says, with `mData` as it was. Otherwise the bit of the pair is shifted in, so `mData` packs one more bit and that pair did not time out. |
| Driver.Dhtxx.PackCycles | driver/src/main/java/com/vginert/android/things/dhtdriver/Dhtxx.java:205-222 | From zeroed `mData`, the loop reports completion and leaves the bytes exactly as `DecodePairs` of the counts says. It stops at the first pair with a zero count. |
| Driver.Dhtxx.Transact | driver/src/main/java/com/vginert/android/things/dhtdriver/Dhtxx.java:178-237 | With `mData` zeroed, the acknowledgement checks, reading loop, decoding loop and checksum test give the result, bytes and cursor of `Transaction`. |
| Driver.Dhtxx.ReadSample | driver/src/main/java/com/vginert/android/things/dhtdriver/Dhtxx.java:134-145 | A throttled call returns the last result and changes nothing. Any other call records `now`, runs `Transaction` from zeroed data, and keeps its result as the last result. |
| Driver.Dhtxx.ReadTemperature | driver/src/main/java/com/vginert/android/things/dhtdriver/Dhtxx.java:61-86 | Always runs a transaction (forced). The reading is `Temperature` of the new bytes when it succeeds, otherwise `None`. |
| Driver.Dhtxx.ReadHumidity | driver/src/main/java/com/vginert/android/things/dhtdriver/Dhtxx.java:96-117 | Not forced. When throttled, the reading is `Humidity` of the cached bytes if the last result was true. Otherwise it is `Humidity` of a fresh transaction's bytes when that succeeds. |
| Driver.Dhtxx.ReadTemperatureAndHumidity | driver/src/main/java/com/vginert/android/things/dhtdriver/Dhtxx.java:126-128 | Within 2000 ms, both readings come from the one forced transaction and the line is read once. Otherwise the humidity comes from a second transaction on the samples that follow. |
| Driver.Dhtxx.ReadSampleAsWritten | driver/src/main/java/com/vginert/android/things/dhtdriver/Dhtxx.java:134-155 | As written: a throttled call returns the last result and changes nothing. Any other call records `now`, zeroes `mData`, keeps the last result and throws `IllegalMonitorStateException` before reading the line. |
| Driver.Dhtxx.ReadTemperatureAsWritten | driver/src/main/java/com/vginert/android/things/dhtdriver/Dhtxx.java:61-86 | As written: every call throws `IllegalMonitorStateException` out of the reader, with `now` recorded, `mData` zeroed and the last result kept. |
| Driver.Dhtxx.ReadHumidityAsWritten | driver/src/main/java/com/vginert/android/things/dhtdriver/Dhtxx.java:96-117 | As written: a throttled call decodes the cached bytes as `ReadHumidity` does. Any other call throws `IllegalMonitorStateException`, with `now` recorded and `mData` zeroed. |
| Driver.Dhtxx.ReadTemperatureAndHumidityAsWritten | driver/src/main/java/com/vginert/android/things/dhtdriver/Dhtxx.java:126-128 | As written: the temperature read throws, so the humidity is never read and no array is returned. |
| Driver.FirstHumidityReadThrows | driver/src/main/java/com/vginert/android/things/dhtdriver/Dhtxx.java:155 | On a fresh driver, whatever the line and the cycle bound, the first non-forced humidity read at time 0 throws `IllegalMonitorStateException`. |
| JavaBytes.ToByte | driver/src/main/java/com/vginert/android/things/dhtdriver/Dhtxx.java:213-217 | The narrowing `(byte)` of a compound assignment keeps exactly the low 8 bits, as a value in -128..127. |
| JavaBytes.Unsigned | driver/src/main/java/com/vginert/android/things/dhtdriver/Dhtxx.java:72-76 | Masking a byte with `0xFF` gives 0..255 with the same low 8 bits. |
| JavaBytes.OrLowBit | driver/src/main/java/com/vginert/android/things/dhtdriver/Dhtxx.java:217 | Setting the lowest bit, as line 217 does, gives an odd number that is `x` or `x + 1`. |
| Pulses.ExpectPulse | driver/src/main/java/com/vginert/android/things/dhtdriver/Dhtxx.java:240-248 | The count lies between 0 and the cycle bound, and at least one sample is consumed. |
| Pulses.ExpectPulseMeaning | driver/src/main/java/com/vginert/android/things/dhtdriver/Dhtxx.java:240-248 | The count is 0 iff the first sample differs or the level lasts beyond the bound. Otherwise it is the length of the run, and the sample ending the run is consumed too. |
| Pulses.ExpectPulseOfRun | driver/src/main/java/com/vginert/android/things/dhtdriver/Dhtxx.java:240-248 | A run of exactly n samples, with 1 <= n <= bound, counts n and leaves the cursor just past the sample that ends it. |
| Protocol.Measure | driver/src/main/java/com/vginert/android/things/dhtdriver/Dhtxx.java:198-201 | Measuring `pairs` pairs gives `2 * pairs` nonnegative counts and consumes at least two samples per pair. |
| Protocol.MeasureSnoc | driver/src/main/java/com/vginert/android/things/dhtdriver/Dhtxx.java:198-201 | Measuring one pair more appends the counts of the next low and high pulse. This is the loop's step, proved by induction. |
| Protocol.PairBit | driver/src/main/java/com/vginert/android/things/dhtdriver/Dhtxx.java:215-221 | The bit of a pair whose high and low counts are equal is 0, the case the comment calls weird. |
| Protocol.DecodePairs | driver/src/main/java/com/vginert/android/things/dhtdriver/Dhtxx.java:205-222 | The decoding loop always leaves five bytes; what they hold is stated by `DecodePairsMeaning`. |
| Protocol.Transaction | driver/src/main/java/com/vginert/android/things/dhtdriver/Dhtxx.java:178-237 | A transaction leaves five bytes and consumes at least one sample. On success the checksum byte is nonnegative. |
| Protocol.FirstTimeout | driver/src/main/java/com/vginert/android/things/dhtdriver/Dhtxx.java:205-212 | Gives the index of the first timed-out pair, or n when none timed out. Every earlier pair is counted. |
| Protocol.PackPairStep | driver/src/main/java/com/vginert/android/things/dhtdriver/Dhtxx.java:213-218 | Shifting in the bit of pair n turns the packing of n bits into the packing of n + 1 bits. |
| Protocol.DecodeStopsAt | driver/src/main/java/com/vginert/android/things/dhtdriver/Dhtxx.java:205-212 | When pair i is the first to time out, decoding fails with only the first i bits packed. |
| Protocol.DecodeCompletes | driver/src/main/java/com/vginert/android/things/dhtdriver/Dhtxx.java:205-222 | When no pair times out, decoding completes with all 40 bits packed. |
| Protocol.DecodePairsMeaning | driver/src/main/java/com/vginert/android/things/dhtdriver/Dhtxx.java:205-222 | Decoding completes iff none of the 80 counts is 0. Then bit i of the frame is 1 iff high count i exceeds low count i, so equal counts give 0. |
| Protocol.TransactionMeaning | driver/src/main/java/com/vginert/android/things/dhtdriver/Dhtxx.java:178-237 | Success iff both acknowledgement counts and all 80 counts are nonzero and the checksum test passes. A failed acknowledgement leaves the data zeroed. On success every bit matches its pair. |
| Protocol.TransactionRejectsHighChecksum | driver/src/main/java/com/vginert/android/things/dhtdriver/Dhtxx.java:229-237 | A successful transaction has a correct unsigned checksum whose byte is below 0x80. |
| Protocol.ZeroMaxCyclesAlwaysFails | driver/src/main/java/com/vginert/android/things/dhtdriver/Dhtxx.java:243 | With a cycle bound of 0 or less, every transaction fails with zeroed data after consuming one sample. |
| Frames.Pack | driver/src/main/java/com/vginert/android/things/dhtdriver/Dhtxx.java:205-222 | The packing of up to 40 bits is always five bytes; which bits they hold is stated by `PackStep`, `PackedBits` and `PackFrameBits`. |
| Frames.ShiftIn | driver/src/main/java/com/vginert/android/things/dhtdriver/Dhtxx.java:213-217 | Shifting a bit into a byte appends the bit to the byte's low 8 bits. |
| Frames.ChecksumAsWritten | driver/src/main/java/com/vginert/android/things/dhtdriver/Dhtxx.java:229 | The test as written passes iff the checksum byte is nonnegative and agrees with the sum of the signed data bytes in its low 8 bits. |
| Frames.PackStep | driver/src/main/java/com/vginert/android/things/dhtdriver/Dhtxx.java:213-218 | Shifting bit n into byte n / 8 of the packing of n bits gives the packing of n + 1 bits. |
| Frames.PackedBits | driver/src/main/java/com/vginert/android/things/dhtdriver/Dhtxx.java:205-222 | Once all 40 bits are packed, bit i reads back MSB-first from byte i / 8. |
| Frames.PackFrameBits | driver/src/main/java/com/vginert/android/things/dhtdriver/Dhtxx.java:205-222 | Packing the bits of five unsigned bytes gives exactly those bytes as Java bytes. |
| Frames.ChecksumAsWrittenIff | driver/src/main/java/com/vginert/android/things/dhtdriver/Dhtxx.java:229 | The test as written accepts a frame iff its unsigned checksum is correct and the checksum byte is below 0x80. |
| Frames.ChecksumIntendedMeaning | driver/src/main/java/com/vginert/android/things/dhtdriver/Dhtxx.java:229 | The intended test accepts a frame iff byte 4 is the low 8 bits of the sum of bytes 0-3. |
| Frames.ChecksumRejectsValidFrame | driver/src/main/java/com/vginert/android/things/dhtdriver/Dhtxx.java:229 | The frame 02 8C 01 5D EC has a correct checksum, yet the test as written rejects it. |
| Readings.Temperature | driver/src/main/java/com/vginert/android/things/dhtdriver/Dhtxx.java:61-86 | A reading exists iff the sensor type is 11, 21 or 22. |
| Readings.Humidity | driver/src/main/java/com/vginert/android/things/dhtdriver/Dhtxx.java:96-117 | A reading exists iff the sensor type is 11, 21 or 22. |
| Readings.TemperatureIntended | driver/src/main/java/com/vginert/android/things/dhtdriver/Dhtxx.java:61-86 | The corrected temperature decoding gives a reading iff the sensor type is 11, 21 or 22; its round trip is `TemperatureIntendedRoundTrip`. |
| Readings.HumidityIntended | driver/src/main/java/com/vginert/android/things/dhtdriver/Dhtxx.java:96-117 | The corrected humidity decoding gives a reading iff the sensor type is 11, 21 or 22; its round trip is `HumidityIntendedRoundTrip`. |
| Readings.TemperatureSignBit | driver/src/main/java/com/vginert/android/things/dhtdriver/Dhtxx.java:76-78 | Setting bit 0x80 of byte 2 negates a DHT21/22 temperature. |
| Readings.TemperatureAsWrittenDeviation | driver/src/main/java/com/vginert/android/things/dhtdriver/Dhtxx.java:72-78 | The code's DHT21/22 temperature equals the sign-magnitude reading except when byte 3 is 0x80 or more; then the magnitude is 256 too small. |
| Readings.HumidityAsWrittenDeviation | driver/src/main/java/com/vginert/android/things/dhtdriver/Dhtxx.java:106-108 | The code's DHT21/22 humidity is the 16-bit reading, less 65536 when byte 0 is 0x80 or more and less 256 when byte 1 is. |
| Readings.TemperatureAsWrittenExample | driver/src/main/java/com/vginert/android/things/dhtdriver/Dhtxx.java:72-74 | Bytes 01 90 (40.0 degrees) read as 14.4 degrees. |
| Readings.HumidityAsWrittenExample | driver/src/main/java/com/vginert/android/things/dhtdriver/Dhtxx.java:106-108 | Bytes 02 8C (65.2 percent) read as 39.6 percent. |
| Readings.TemperatureIntendedRoundTrip | driver/src/main/java/com/vginert/android/things/dhtdriver/Dhtxx.java:72-78 | The intended decoding returns any DHT21/22 temperature in (-3276.8, 3276.8) degrees from its encoded frame. |
| Readings.HumidityIntendedRoundTrip | driver/src/main/java/com/vginert/android/things/dhtdriver/Dhtxx.java:106-108 | The intended decoding returns any 16-bit DHT21/22 humidity from its encoded frame. |
| Readings.AsWrittenAgreesOnSmallBytes | driver/src/main/java/com/vginert/android/things/dhtdriver/Dhtxx.java:61-117 | The code returns the encoded readings unchanged whenever both low bytes and the humidity high byte are below 0x80. |
| Waveforms.MeasureBits | driver/src/main/java/com/vginert/android/things/dhtdriver/Dhtxx.java:198-201 | On samples that carry a run of bit waves of the model's fixed shape (a 1 is low 2 then high 3 samples, a 0 is low 3 then high 2), the counts are each pulse's length less one, and the cursor lands just past the wave that follows. |
| Waveforms.DecodeWaveCounts | driver/src/main/java/com/vginert/android/things/dhtdriver/Dhtxx.java:205-222 | The counts of a 40-bit reply decode completely, to the packing of those bits. |
| Waveforms.TransactionOfReply | driver/src/main/java/com/vginert/android/things/dhtdriver/Dhtxx.java:178-237 | A transaction on samples that carry a reply of 40 bits in the fixed wave shape packs exactly those bits, and succeeds iff they pass the checksum test as written. |
| Waveforms.TransactionRecoversFrame | driver/src/main/java/com/vginert/android/things/dhtdriver/Dhtxx.java:178-237 | With a cycle bound of at least 2, a transaction on the fixed-shape reply for five bytes leaves exactly those bytes, and succeeds iff the checksum is right and its byte is below 0x80. |

## Left out

- GPIO acquisition and configuration (`openGpio`, `setDirection`, `setValue`, lines 40-45 and 154-174). This is hardware I/O. The line is the `Gpio` record of sampled levels, and the start signal is not modelled.
- The `wait(...)` calls of lines 155, 160, 170 and 174 as pauses. As written they do not pause: `Object.wait` called without the object's monitor throws `IllegalMonitorStateException`, which the `...AsWritten` methods model (see Findings). Their durations are timing and are left out.
- `System.currentTimeMillis()`. The clock is the `now` parameter of each reader.
- `Log.d` calls. They are diagnostics only.
- The commented-out interrupt lock (line 166). It is concurrency and has no code.
- `close()` (lines 51-54). It only throws `UnsupportedOperationException`.
- The placeholder sensor constants (lines 19-24). No code of the engine uses them.
- `DhtxxHumidityAndTemperatureDriver.java` is not part of this model. It is framework registration with no protocol logic.
- `InterruptedException` handling in the readers (rethrown as `IOException`). Interruption is concurrency. The only exception modelled is the `IllegalMonitorStateException` of line 155.
- Driver.Dhtxx.ReadSample: models the code as if the waits of lines 155-174 return, so that the transaction of lines 178-237 is reached. As written, line 155 throws first; `Driver.Dhtxx.ReadSampleAsWritten` models that.
- Waveforms.TransactionOfReply: covers one fixed reply shape, in which every bit is a 5-sample wave (low 2 and high 3 samples for a 1, low 3 and high 2 for a 0). Replies with other pulse lengths are not covered. In general a pulse of L samples after the first counts L - 1, so it needs 2 <= L <= bound + 1. The same holds for `Waveforms.TransactionRecoversFrame` and `Waveforms.MeasureBits`.
- Driver.Dhtxx.constructor: takes the `Gpio` object and the cycle bound as parameters instead of opening a pin by name. The code as written never assigns the bound, so there it is 0.
- Driver.Dhtxx.ReadTemperature: readings are integer tenths, not floats. `f *= 0.1` and its float rounding are not modelled, and `None` stands for `Float.NaN`. The same holds for `Driver.Dhtxx.ReadHumidity` and `Driver.Dhtxx.ReadTemperatureAndHumidity`.
- Driver.Dhtxx.ReadSample: `currentTime - mLastReadTime` is an unbounded integer difference, so the `long` overflow of extreme clock values is not modelled.
- Driver.Dhtxx.ExpectPulse: `count` and `mMaxCycles` are unbounded integers. The `long` overflow of `count++` is not modelled; it would need about 2^63 samples.
- The two loops of `readSample` and its transaction part are separate methods: `ReadCycles`/`ReadPair`, `PackCycles`/`PackPair`/`ShiftBitIn` and `Transact`. Each is proved against the same `Protocol` functions, and `ReadSample` composes them in the code's order.
- The checksum test `Transact` runs is `Frames.ChecksumAsWritten` on the contents of `mData`. This is the expression of line 229 on the signed bytes.

## Findings

| source | as written | input that shows it | evidently intended | confidence | as-written member | corrected member |
|---|---|---|---|---|---|---|
| driver/src/main/java/com/vginert/android/things/dhtdriver/Dhtxx.java:229 | The signed byte `mData[4]` (-128..127) is compared with `(sum) & 0xFF` (0..255), so a checksum byte of 0x80 or more never matches. | Frame 02 8C 01 5D EC: 0x02 + 0x8C + 0x01 + 0x5D = 0xEC, yet it is rejected. | Compare the unsigned checksum byte with the low 8 bits of the unsigned sum. | not executed | Frames.ChecksumRejectsValidFrame | Frames.ChecksumIntendedMeaning |
| driver/src/main/java/com/vginert/android/things/dhtdriver/Dhtxx.java:106-108 | The DHT21/22 humidity adds `mData[0]` and `mData[1]` sign-extended. | Bytes 02 8C (65.2 %) read as 39.6 %. | Read bytes 0-1 as an unsigned 16-bit number of tenths. | not executed | Readings.HumidityAsWrittenExample | Readings.HumidityIntendedRoundTrip |
| driver/src/main/java/com/vginert/android/things/dhtdriver/Dhtxx.java:72-74 | The DHT21/22 temperature adds `mData[3]` sign-extended. | Bytes 01 90 (40.0 degrees) read as 14.4 degrees. | Read the magnitude as `(byte2 & 0x7F) * 256 + (byte3 & 0xFF)`. | not executed | Readings.TemperatureAsWrittenExample | Readings.TemperatureIntendedRoundTrip |
| driver/src/main/java/com/vginert/android/things/dhtdriver/Dhtxx.java:243 | `mMaxCycles` is never assigned (line 33), so it is 0. The first sample at the expected level already exceeds the bound, so every transaction fails. | Any line. `expectPulse(false)` returns 0 at once, whatever the samples. As written, line 155 throws before this line is reached. | A cycle bound large enough to cover the longest pulse. | not executed | Protocol.ZeroMaxCyclesAlwaysFails | Waveforms.TransactionRecoversFrame |
| driver/src/main/java/com/vginert/android/things/dhtdriver/Dhtxx.java:155 | `wait(250)` (and the waits at lines 160, 170 and 174) call `Object.wait` on the driver without holding its monitor, since nothing is `synchronized`. So every non-throttled `readSample` throws `IllegalMonitorStateException` after recording the time and zeroing `mData`. The readers catch only `InterruptedException`, so no reading is ever returned. | `readHumidity()` at time 0 on a fresh driver, whatever the line. | A sleep (`Thread.sleep` or a busy wait) that returns, so the transaction of lines 178-237 runs. | not executed | Driver.FirstHumidityReadThrows | Driver.Dhtxx.ReadSample |
