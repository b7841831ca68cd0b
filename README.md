# LoRa telemetry frame decoder

A Dafny model of the two Node-RED formatter functions that decode a LoRa
sensor's hex-encoded measurement frame. Both do the same steps:

1. Upper-case the payload.
2. Read the header. The nibble at index 1 is the sample count minus one. When
   there are several samples, a 16-bit emission period follows in characters 2..5.
3. Walk the segments. These are back to back with no delimiters. Each segment
   is a type code (`08` temperature, `0A` voltage, `0B` current) followed by one
   4-digit reading per sample.
4. Divide each reading by its kind's divisor (100, 1000, 100).
5. Transpose the labelled segments into one record per sample.
6. Emit one message per sample, filed under a device suffix and back-dated
   `frequency * (n - i - 1)` minutes.

The two formatters differ in three ways:

- The address formatter names the device by the last 8 characters of
  `devaddr` and labels values `Temperature:<dev>`, `Tension:<dev>` and
  `Courant:<dev>`.
- The EUI formatter names the device by the last 5 characters of `deveui` and
  labels values `<dev>:temperature`, `<dev>:voltage` and `<dev>:current`.
- The EUI formatter copies the incoming topic onto every message.

The shared pipeline is module `Decoder`. It is parameterised by a `Variant`
that holds the suffix length, the label function and whether the topic is
copied. `AddressFormatter` and `DevEuiFormatter` each instantiate it once.

There are two layers:

- **Specification functions.** `ReadHeader`, `ReadValues`, `ReadSegment`,
  `SegmentsFrom`, `ParseFrame`, `Row`/`Transpose` and `Messages`/`DecodeFrame`
  describe the result.
- **Imperative methods.** `Walk`, `ReadReadings`, `ReadDigits`, `Combine`,
  `Spread`, `Assemble` and `Decode` follow the source's cursor-driven loops,
  in-place pushes and keyed writes. Each one is proved to compute its
  specification function.

Lemmas about the specification functions then state the properties:

- segment layout and count;
- the position of every reading;
- the divisor per kind;
- last-write-wins in the transpose;
- message count and timing;
- the topic copy;
- insensitivity to letter case;
- decoding what the sensor encodes.

Modules:

- `Results`: Option and Result.
- `Hex`: ASCII upper-casing, digit values, fixed-width numbers and their encoding.
- `Frame`: the type tables, the header, the segment walk and its layout, and the sensor-side encoder.
- `Samples`: ordered records and the transpose.
- `Decoder`.
- the two formatters.

Notes on the layout:

- The sample count is the hex digit `hexData[1]` plus one, so it lies in
  1..16.
- A record holds one entry per distinct label, so a later segment of the same
  kind overwrites an earlier one.
- The current divisor is 100, as in `dividerReferences`, although the comments
  at Javascript_Formatter_For_Node_RED.js:23 and
  C_Javascript_Formatter_For_Node_RED.js:19 call the readings thousandths of
  an ampere.

## Model

| member | source | states |
|---|---|---|
| Hex.ToUpper | Javascript_Formatter_For_Node_RED.js:12 | upper-casing keeps the length, leaves no lower-case letter, maps each lower-case letter to its capital and keeps every other character |
| Hex.UpperTwice | Javascript_Formatter_For_Node_RED.js:12 | upper-casing an upper-cased payload changes nothing |
| Hex.UpperOfHex | Javascript_Formatter_For_Node_RED.js:12 | a string of upper-case hex digits is unchanged by upper-casing |
| Hex.UpperOfDigits | Javascript_Formatter_For_Node_RED.js:12 | a string spelled with the characters 0-9, A-F only is unchanged by upper-casing |
| Hex.HexDigit | Javascript_Formatter_For_Node_RED.js:10 | a character has a digit value exactly when it is one of 0-9, A-F; the value is below 16 and is the digit that character spells |
| Hex.HexValue | Javascript_Formatter_For_Node_RED.js:71 | a digit string's value is below 16 to the power of its length |
| Hex.HexValueDefined | Javascript_Formatter_For_Node_RED.js:71 | a digit string has a value exactly when every character is a hex digit |
| Hex.HexValueFour | Javascript_Formatter_For_Node_RED.js:64-71 | a four-digit field is read big-endian: 4096, 256, 16 and 1 times its digits |
| Hex.ToHex | Javascript_Formatter_For_Node_RED.js:64-71 | the sensor-side encoding of a value has the requested width and is all hex digits |
| Hex.HexRoundTrip | Javascript_Formatter_For_Node_RED.js:71 | reading back a fixed-width encoding gives the encoded value |
| Hex.ToHexOfValue | Javascript_Formatter_For_Node_RED.js:71 | re-encoding the value of a digit string gives the string back |
| Frame.Code | Javascript_Formatter_For_Node_RED.js:16-20 | every type code is two characters; `KindOf` maps it back to its kind |
| Frame.Divisor | Javascript_Formatter_For_Node_RED.js:25-29 | the divisor is 1000 exactly for voltage (0A) and 100 for temperature (08) and current (0B) |
| Frame.KindOf | Javascript_Formatter_For_Node_RED.js:16-20 | the type table maps a code to a kind exactly when the code is that kind's code (08, 0A, 0B); any other code has no entry |
| Frame.ReadHeader | Javascript_Formatter_For_Node_RED.js:34-47 | the sample count is digit 1 plus one, in 1..16; the frequency is 0 for one sample, otherwise the value of characters 2..5 (below 65536) divided by the count; segments start at 2 or 6; a frame shorter than 2 characters is a malformed header, a non-hex digit 1 is an invalid digit at 1, a multi-sample frame shorter than 6 characters is a malformed header, and a non-hex period field is an invalid digit at 2 |
| Frame.ReadValues | Javascript_Formatter_For_Node_RED.js:58-75 | a successful read yields exactly `count` values and stays inside the frame |
| Frame.ReadValuesTruncated | Javascript_Formatter_For_Node_RED.js:58-69 | when `count` readings do not fit in the rest of an all-hex frame, the read fails as truncated at the first reading that is cut off |
| Frame.ValueAt | Javascript_Formatter_For_Node_RED.js:58-72 | value j is the 16-bit reading whose digits start at `at + 4 * j`, divided by the divisor |
| Frame.ReadSegment | Javascript_Formatter_For_Node_RED.js:50-75 | a segment read succeeds only inside the frame, with the code of its kind at the cursor and `n` values; a cut-off code is a truncation error and an unknown code an unknown-type error |
| Frame.SegmentValueAt | Javascript_Formatter_For_Node_RED.js:58-72 | value j of a segment is the reading at `at + 2 + 4 * j` divided by its kind's divisor |
| Frame.SegmentsFrom | Javascript_Formatter_For_Node_RED.js:50-77 | every walked segment has exactly `n` values |
| Frame.Walk | Javascript_Formatter_For_Node_RED.js:47-77 | the outer loop with its cursor returns exactly the specified walk, including its first error |
| Frame.ReadReadings | Javascript_Formatter_For_Node_RED.js:58-75 | the middle loop returns exactly the specified readings of one segment |
| Frame.ReadDigits | Javascript_Formatter_For_Node_RED.js:64-69 | the digit loop completes exactly when four characters remain, and then collects those four |
| Frame.ParseFrame | Javascript_Formatter_For_Node_RED.js:34-77 | every segment of a decoded frame carries one value per sample |
| Frame.SegmentsLength | Javascript_Formatter_For_Node_RED.js:50-77 | a successful walk consumes exactly one segment width per segment and ends at the end of the frame |
| Frame.FrameLayout | Javascript_Formatter_For_Node_RED.js:47-77 | for a decoded frame, the length after the header is the number of segments times `2 + 4n`, and that number is the length divided by the width |
| Frame.StartFormula | Javascript_Formatter_For_Node_RED.js:47-58 | segment k begins `k * (2 + 4n)` characters after the first segment offset |
| Frame.SegmentAt | Javascript_Formatter_For_Node_RED.js:50-77 | segment k of the walk is the one read at segment start k |
| Frame.ParsedCode | Javascript_Formatter_For_Node_RED.js:50-55 | segment k of a decoded frame starts at segment start k, lies inside the frame and begins with the type code of its kind |
| Frame.ParsedReading | Javascript_Formatter_For_Node_RED.js:58-72 | value j of segment k of a decoded frame is the 16-bit reading at `start + 2 + 4j` over its kind's divisor |
| Frame.HundredthsOfKind | Javascript_Formatter_For_Node_RED.js:25-29 | raw 0064 decodes to 1 for 08, 0.1 for 0A and 1 for 0B |
| Frame.ValuesRoundTrip | Javascript_Formatter_For_Node_RED.js:58-75 | encoded readings read back as those readings scaled by the divisor |
| Frame.SegmentRoundTrip | Javascript_Formatter_For_Node_RED.js:50-75 | an encoded segment reads back as its kind and scaled readings, and the walk resumes right after it |
| Frame.SegmentsRoundTrip | Javascript_Formatter_For_Node_RED.js:50-77 | encoded segments walk back to the scaled segments |
| Frame.FrameRoundTrip | Javascript_Formatter_For_Node_RED.js:34-77 | decoding a well-formed encoded frame recovers its sample count, period per sample and every scaled reading |
| Samples.Put | Javascript_Formatter_For_Node_RED.js:91 | a keyed assignment adds at most one entry, and the key then reads the assigned value |
| Samples.Row | Javascript_Formatter_For_Node_RED.js:86-91 | the record for one index has at most one entry per column |
| Samples.Transpose | Javascript_Formatter_For_Node_RED.js:79-93 | `combinedData` has a record for exactly the indices some column reaches, each with at most one entry per column |
| Samples.Latest | Javascript_Formatter_For_Node_RED.js:83-92 | a last-write-wins value exists only for an index some column reaches |
| Samples.LookupDefined | Javascript_Formatter_For_Node_RED.js:88-91 | a record has a value under a key exactly when it holds that key |
| Samples.PutLookup | Javascript_Formatter_For_Node_RED.js:91 | after a keyed assignment the key reads the new value and every other key reads what it did before |
| Samples.PutKeys | Javascript_Formatter_For_Node_RED.js:91 | a keyed assignment keeps the key order, appending a key it did not hold |
| Samples.RowLookup | Javascript_Formatter_For_Node_RED.js:79-93 | record i maps each key to reading i of the last column carrying that key (last-write-wins) |
| Samples.RowKeysDistinct | Javascript_Formatter_For_Node_RED.js:79-93 | no record holds a key twice |
| Samples.LatestWriter | Javascript_Formatter_For_Node_RED.js:83-92 | the last-write-wins value comes from a column with the key and no later column with the key has reading i; with no value, no column with the key has reading i |
| Samples.TransposeDomain | Javascript_Formatter_For_Node_RED.js:79-93 | with `n` readings per column the transpose has a record for exactly the indices 0..n-1, and none when there are no columns |
| Samples.RowBeyond | Javascript_Formatter_For_Node_RED.js:88-90 | an index no column reaches has the empty record |
| Samples.HoldsTranspose | Javascript_Formatter_For_Node_RED.js:79-93 | a map holding row i for exactly the reached indices is the transpose |
| Samples.Combine | Javascript_Formatter_For_Node_RED.js:79-93 | the keyed writes into `combinedData`, column by column, produce exactly the transpose |
| Samples.Spread | Javascript_Formatter_For_Node_RED.js:86-92 | spreading one more column creates the missing records and keeps the map equal to the transpose of the columns so far |
| Decoder.DeviceSuffix | Javascript_Formatter_For_Node_RED.js:8 | the device id is the last `length` characters of the address, or the whole address when it is shorter |
| Decoder.Columns | Javascript_Formatter_For_Node_RED.js:54-74 | one column per segment, in frame order, keyed by the variant's label of its kind and holding its values |
| Decoder.Offset | Javascript_Formatter_For_Node_RED.js:98 | the back-dating is never negative for a nonnegative period, and is 0 for the last sample and when there is only one |
| Decoder.MessageAt | Javascript_Formatter_For_Node_RED.js:96-109 | message i is back-dated by the offset of i, filed under the device, holds `combinedData[i]` exactly when that record exists, and carries the topic exactly when the variant copies it |
| Decoder.Messages | Javascript_Formatter_For_Node_RED.js:95-110 | there is one message per sample |
| Decoder.Assemble | Javascript_Formatter_For_Node_RED.js:95-110 | the message loop produces exactly the specified messages in index order |
| Decoder.DecodeFrame | Javascript_Formatter_For_Node_RED.js:12-110 | a payload decodes exactly when its upper-cased frame parses, into one message per sample |
| Decoder.Decode | Javascript_Formatter_For_Node_RED.js:8-110 | the formatter body computes exactly the specified decoding, including its errors |
| Decoder.DecodeShape | Javascript_Formatter_For_Node_RED.js:36 | a decoding has 1..16 messages, one more than payload digit 1; each is filed under the device suffix and carries the topic exactly when the variant copies it |
| Decoder.DecodeTiming | Javascript_Formatter_For_Node_RED.js:98 | message i is back-dated `frequency * (n - i - 1)` minutes; the last is not back-dated; offsets never increase with i and strictly decrease when the period is positive; with one sample nothing is back-dated |
| Decoder.MessagesTiming | Javascript_Formatter_For_Node_RED.js:96-98 | in the message loop's output, message i is back-dated `frequency * (n - i - 1)` minutes, the last not at all, and offsets never increase with i |
| Decoder.OffsetOrder | Javascript_Formatter_For_Node_RED.js:98 | offsets are nonincreasing in the index, strictly decreasing for a positive period, and 0 for the last sample |
| Decoder.DecodeRecords | Javascript_Formatter_For_Node_RED.js:79-108 | message i has a record exactly when the frame has a segment; it holds no key twice and, under each key, reading i of the last segment with that label |
| Decoder.DecodeKindReading | Javascript_Formatter_For_Node_RED.js:79-108 | when labels tell kinds apart, message i has a value under the label of a kind exactly when a segment of that kind exists, and it is reading i of the last such segment |
| Decoder.KindLatest | Javascript_Formatter_For_Node_RED.js:83-92 | with labels that tell kinds apart, the last-write-wins value under a kind's label exists exactly when a segment of that kind exists, and is reading i of the last one |
| Decoder.DecodeIgnoresCase | Javascript_Formatter_For_Node_RED.js:12 | a payload decodes as its upper-cased form does |
| Decoder.DecodeEncoded | Javascript_Formatter_For_Node_RED.js:8-110 | decoding a well-formed sensor frame gives its header's messages over the transpose of its scaled, labelled segments |
| AddressFormatter.Format | Javascript_Formatter_For_Node_RED.js:1-114 | the address formatter is the shared decoding with an 8-character suffix, its labels and no topic |
| AddressFormatter.Label | Javascript_Formatter_For_Node_RED.js:17-19 | a label ends with `:` followed by the device id |
| AddressFormatter.LabelsOfKindsDiffer | Javascript_Formatter_For_Node_RED.js:16-20 | the three labels of a device are pairwise different |
| AddressFormatter.SingleTemperatureFrame | Javascript_Formatter_For_Node_RED.js:34-77 | "a0080064" decodes to one sample with no period and one temperature segment reading 1.0 |
| AddressFormatter.SingleTemperature | Javascript_Formatter_For_Node_RED.js:1-114 | "a0080064" from "0011223344556677" gives one message, not back-dated, filed under "44556677", holding `Temperature:44556677` = 1.0 |
| AddressFormatter.UnknownCode | Javascript_Formatter_For_Node_RED.js:52-54 | the frame "A00C0064", whose type code 0C is not in the table, is rejected as `UnknownMeasurementType("0C")` |
| AddressFormatter.TruncatedReading | Javascript_Formatter_For_Node_RED.js:64-69 | the frame "A008006", whose only reading has three of its four digits, is rejected as `TruncatedFrame(4)`, the position of that reading |
| DevEuiFormatter.Format | C_Javascript_Formatter_For_Node_RED.js:1-102 | the EUI formatter is the shared decoding with a 5-character suffix, its labels and the topic copied |
| DevEuiFormatter.Label | C_Javascript_Formatter_For_Node_RED.js:13-15 | a label starts with the device id followed by `:` |
| DevEuiFormatter.LabelsOfKindsDiffer | C_Javascript_Formatter_For_Node_RED.js:12-16 | the three labels of a device are pairwise different |
| DevEuiFormatter.TopicCopied | C_Javascript_Formatter_For_Node_RED.js:98 | every message of a decoding carries the incoming topic |
| DevEuiFormatter.TwoSamplesFrame | C_Javascript_Formatter_For_Node_RED.js:29-69 | "A1001008006400C8" decodes to 2 samples, period 16/2 = 8 minutes, one temperature segment reading 1.0 then 2.0 |
| DevEuiFormatter.TwoSamples | C_Javascript_Formatter_For_Node_RED.js:1-102 | that frame from "70B3D5E75E00A1B2" on topic "t" gives two messages under "0A1B2": 8 minutes back with 1.0, then not back-dated with 2.0, both on "t" |

## Left out

- Reference time and formatting are not modelled: `new Date()`, `setMinutes`,
  `getMinutes` and `toISOString`. A message carries only its back-dating in
  minutes, as an exact real. Calendar roll-over and the truncation of
  fractional minutes by `setMinutes` are not modelled.
- Decoded values and the period are exact reals (`raw / divisor`,
  `field / count`). IEEE floating-point rounding is not modelled.
- Malformed input is reported as an error instead of reproduced. On malformed
  input the source lets `"undefined"` into digit strings and reads them with
  `parseInt` prefix parsing. It also files readings under an `undefined` label
  with `NaN` values when the type code is unknown. The model reports these
  cases as `MalformedHeader`, `InvalidHexDigit`, `TruncatedFrame` or
  `UnknownMeasurementType`, and decoding is all-or-nothing.
- Hex.HexValue: only a string made entirely of hex digits has a value. The
  model does not read a valid prefix of a longer string, accept a `0x`
  prefix, skip leading blanks or accept a leading sign as `parseInt` does
  (`parseInt("-064", 16)` is -100, so such a temperature field would decode
  to -1.0).
- Hex.ToUpper: upper-cases ASCII `a`-`z` only. Other Unicode case mappings of
  `toUpperCase` are not modelled.
- Strings are sequences of Unicode scalar values. JavaScript indexes
  `hexData[i]` and cuts `substring` (Javascript_Formatter_For_Node_RED.js:8,
  C_Javascript_Formatter_For_Node_RED.js:5) by UTF-16 code units, so for an
  address with characters outside the Basic Multilingual Plane
  `Decoder.DeviceSuffix` and the source can pick different suffixes.
- Character 0, the high nibble of the packet-type byte, is never examined,
  just as the source never examines it
  (Javascript_Formatter_For_Node_RED.js:35, C_Javascript_Formatter_For_Node_RED.js:30);
  character 1 is the sample count. The sensor-side encoder carries the high
  nibble only to reproduce the frame.
- Node-RED message plumbing is not modelled: reading `msg.payload` and
  `msg.rawdata`, the `{ payload: { d: { dev: { Val } }, ts } }` nesting, and
  the `return msg` / `return [messages]` routing. A message is the triple
  (back-dating, device, record) plus the topic.
- AddressFormatter.Format: that formatter never reads a topic, so it passes
  an empty one, which is never copied.
- Labels are applied once per segment when the columns are built. The source
  builds a one-key object per value. Only the label and the value reach the
  transpose, so the result is the same.
- Records are sequences of (key, value) entries in first-write order. This
  matches how a JavaScript object keeps string keys. `combinedData`, whose
  keys are sample indices, is a map. When the frame has no segment,
  `combinedData[i]` is undefined; the model represents this as `None`.
