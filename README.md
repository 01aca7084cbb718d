# Wahoo Kickr SNAP power-notification decoder

A Dafny model of the notification handler of the Wahoo Kickr SNAP smart
trainer (`motivation/trainers/wahoo_kickr_snap.py`). When the trainer's
Bluetooth client delivers a notification, the handler looks up the service
of the sending characteristic. It keeps only services whose description
contains "cycling power" (case-insensitive, after trimming). It rejects
payloads shorter than the power frame. Otherwise it unpacks the first
twelve bytes with the `struct` layout `"BBHHBBHH"` and hands the third
field to the power tracker.

The model is made of pure functions and lemmas, plus one method:

- `Bytes`: bytes as integers 0..255; `Le16` reads a little-endian 16-bit word.
- `Text`: ASCII lower-casing, Python's `str.strip` and the substring test `in`.
  The search is proved equal to "occurs at some position". Trimming is proved
  not to matter for a needle that does not start or end with whitespace.
- `HexFormat`: the diagnostic rendering `" ".join("%02X" % b for b in data)`.
  Its length, its alphabet and the position of each byte are proved. A parser
  reads it back, with both round trips proved.
- `StructLayout`: format compilation for the codes `B` and `H`,
  native-alignment offsets, `calcsize`, and `unpack` with its two error cases
  (unknown code, wrong buffer length).
- `WahooKickrSnap`: the layout constants and the four outcomes of one
  notification (`InvalidSender`, `Ignored`, `NotEnoughData`, `Power(v)`).
  `HandleNotification` is the decision as a total function, and
  `NotificationHandler` is the same early-return control flow written as a
  method. The lemmas prove the properties of the decoder, including the
  example frame from the source comment.

The source's two `try` blocks become a total function. The outer block
(lines 46-50) swallows every exception derived from `Exception` (line 48);
`KeyboardInterrupt` and `SystemExit` still propagate. The inner block (lines 68-71)
guards `struct.unpack`. `UnpackPowerFrame` proves that unpacking a
twelve-byte slice always succeeds, so the inner failure branch is
unreachable. It appears in the model as `assert false`.

Byte order: `"BBHHBBHH"` has no prefix, so Python uses the platform's
native order and alignment. The model fixes the order to little-endian.
It models native alignment exactly: each `H` goes on an even offset. That
places no padding in this layout (offsets 0, 1, 2, 4, 6, 7, 8, 10; size
12).

Line 73 forwards `vals[2]`, the first 16-bit field, at bytes 2-3. For the
example frame `14 00 00 00 3A 85 EA 01 00 00 EC 4B` of the comment at line
27 that value is 0. The 0x853A = 34106 at bytes 4-5 is `vals[3]`, which the
handler never forwards. The model proves both values
(`SamplePayloadFields`, `SamplePayloadForwardsZero`).

## Model

| member | source | states |
|---|---|---|
| `Bytes.Le16` | motivation/trainers/wahoo_kickr_snap.py:28 | an unsigned 16-bit field read little-endian is below 65536, and its low and high bytes are the two bytes read |
| `Text.LowerChar` | motivation/trainers/wahoo_kickr_snap.py:64 | `lower()` maps 'A'..'Z' to 'a'..'z' (code point + 32) and leaves every other character alone |
| `Text.Lower` | motivation/trainers/wahoo_kickr_snap.py:64 | `lower()` keeps the length and lower-cases each character in place |
| `Text.LowerOfSameUpToCase` | motivation/trainers/wahoo_kickr_snap.py:64 | two strings that differ only in the case of ASCII letters have the same lower-case form |
| `Text.CaseChangesAreSameUpToCase` | motivation/trainers/wahoo_kickr_snap.py:64 | ASCII upper-casing or lower-casing a string changes it only in the case of ASCII letters |
| `Text.LeadingSpaces` | motivation/trainers/wahoo_kickr_snap.py:64 | `strip()` removes all leading whitespace: every counted character is whitespace and the next one is not |
| `Text.TrailingSpaces` | motivation/trainers/wahoo_kickr_snap.py:64 | `strip()` removes all trailing whitespace: every counted character is whitespace and the one before is not |
| `Text.Strip` | motivation/trainers/wahoo_kickr_snap.py:64 | the result of `strip()` is no longer than its input and neither starts nor ends with whitespace |
| `Text.StripIsWindow` | motivation/trainers/wahoo_kickr_snap.py:64 | the result of `strip()` is a contiguous part of the input with only whitespace before and after it |
| `Text.ContainsIffOccurs` | motivation/trainers/wahoo_kickr_snap.py:64 | the front-to-back search of `in` succeeds exactly when the needle occurs at some position of the haystack |
| `Text.IsSpace` | motivation/trainers/wahoo_kickr_snap.py:64 | the characters `strip()` removes, Python's `str.isspace` set; no ASCII letter or digit is among them |
| `Text.Contains` | motivation/trainers/wahoo_kickr_snap.py:64 | `needle in haystack` as a front-to-back search; `Text.ContainsIffOccurs` states what it means |
| `Text.StripKeepsContains` | motivation/trainers/wahoo_kickr_snap.py:64 | trimming whitespace off the haystack never changes whether it contains a needle that neither starts nor ends with whitespace, in both directions |
| `HexFormat.DigitValue` | motivation/trainers/wahoo_kickr_snap.py:61 | a character has a value exactly when it is one of 0-9A-F, and that value's digit is the character itself |
| `HexFormat.FormatByte` | motivation/trainers/wahoo_kickr_snap.py:61 | `"%02X" % b` is exactly two upper-case digits, the high nibble then the low nibble |
| `HexFormat.FormatData` | motivation/trainers/wahoo_kickr_snap.py:61 | the rendering is empty exactly when the payload is empty |
| `HexFormat.FormatDataLength` | motivation/trainers/wahoo_kickr_snap.py:61 | n bytes render as 3n - 1 characters when n > 0, and as the empty string when n = 0 |
| `HexFormat.FormatDataAt` | motivation/trainers/wahoo_kickr_snap.py:61 | byte i is rendered at positions 3i and 3i + 1, and a single space follows every byte but the last |
| `HexFormat.FormatDataAlphabet` | motivation/trainers/wahoo_kickr_snap.py:61 | every character of a rendering is a digit 0-9A-F or a space |
| `HexFormat.ParseFormatData` | motivation/trainers/wahoo_kickr_snap.py:61 | parsing a rendering back recovers the bytes |
| `HexFormat.FormatParseData` | motivation/trainers/wahoo_kickr_snap.py:61 | any string the parser accepts is exactly the rendering of the bytes it returns, so the rendering is injective |
| `StructLayout.CodeOf` | motivation/trainers/wahoo_kickr_snap.py:28 | only 'B' and 'H' are known codes, and 'B' is the only one that denotes an 8-bit field |
| `StructLayout.ParseFormat` | motivation/trainers/wahoo_kickr_snap.py:28-29 | a format compiles exactly when every character is a known code, into one field per character, in order |
| `StructLayout.AlignUp` | motivation/trainers/wahoo_kickr_snap.py:29 | native alignment moves a field to the first offset at or after the current one that is a multiple of its size |
| `StructLayout.EndFrom` | motivation/trainers/wahoo_kickr_snap.py:29 | the fields end no earlier than they start |
| `StructLayout.EndIsLastFieldEnd` | motivation/trainers/wahoo_kickr_snap.py:29 | the fields end exactly where the last of them ends, so no padding follows the last field |
| `StructLayout.OffsetOf` | motivation/trainers/wahoo_kickr_snap.py:29 | each field starts at or after the start, is aligned to its size and ends before the total size |
| `StructLayout.FieldsDoNotOverlap` | motivation/trainers/wahoo_kickr_snap.py:29 | fields are placed in order and never overlap |
| `StructLayout.CalcSize` | motivation/trainers/wahoo_kickr_snap.py:29 | `calcsize` fails with the format's error exactly when the format does not compile; otherwise it is 0 for the empty format and the offset of the last field plus its size for any other, with no trailing padding |
| `StructLayout.ReadField` | motivation/trainers/wahoo_kickr_snap.py:69 | a 'B' field is its byte, and an 'H' field has the byte at its offset as low byte and the next byte as high byte |
| `StructLayout.DecodeFrom` | motivation/trainers/wahoo_kickr_snap.py:69 | decoding gives one value per field, each read at that field's aligned offset |
| `StructLayout.Unpack` | motivation/trainers/wahoo_kickr_snap.py:69 | `unpack` succeeds exactly when the format compiles and the buffer is exactly `calcsize` bytes long; a bad format fails first; on success every field is read at its offset |
| `WahooKickrSnap.PowerStructFields` | motivation/trainers/wahoo_kickr_snap.py:28 | "BBHHBBHH" compiles to u8, u8, u16, u16, u8, u8, u16, u16 |
| `WahooKickrSnap.PowerFieldsPlacement` | motivation/trainers/wahoo_kickr_snap.py:28-29 | with native alignment those fields sit at offsets 0, 1, 2, 4, 6, 7, 8, 10 and end at 12, with no padding |
| `WahooKickrSnap.PowerStructSizeIsCalcSize` | motivation/trainers/wahoo_kickr_snap.py:29 | `POWER_STRUCT_SIZE` is 12, the value `calcsize` gives for the layout |
| `WahooKickrSnap.UnpackPowerFrame` | motivation/trainers/wahoo_kickr_snap.py:68-71 | unpacking any twelve bytes with the power layout never fails, so the `except` branch is unreachable; the eight values are bytes 0 and 1, the words at bytes 2-3 and 4-5, bytes 6 and 7, and the words at bytes 8-9 and 10-11 |
| `WahooKickrSnap.IsCyclingPower` | motivation/trainers/wahoo_kickr_snap.py:64 | the classifier `"cycling power" in description.lower().strip()`; a description it accepts is at least as long as the needle |
| `WahooKickrSnap.StripDoesNotMatter` | motivation/trainers/wahoo_kickr_snap.py:64 | the `strip()` in the classifier never changes its verdict: a description is a cycling-power one exactly when its lower-case form contains "cycling power" |
| `WahooKickrSnap.HandleNotification` | motivation/trainers/wahoo_kickr_snap.py:52-74 | exactly one of four outcomes, each with its condition in both directions: no service gives InvalidSender; a non-matching description gives Ignored; fewer than 12 bytes give NotEnoughData; otherwise the forwarded value is data[2] + 256 * data[3], below 65536 |
| `WahooKickrSnap.NotificationHandler` | motivation/trainers/wahoo_kickr_snap.py:42-74 | the handler with its early returns always finishes and its outcome is `HandleNotification`'s; no exception derived from `Exception` escapes, provided output never fails |
| `WahooKickrSnap.InvalidSenderWhateverPayload` | motivation/trainers/wahoo_kickr_snap.py:56-59 | an unresolvable sender gives InvalidSender whatever the payload, and nothing is decoded |
| `WahooKickrSnap.OtherServicesIgnored` | motivation/trainers/wahoo_kickr_snap.py:64 | a description whose lower-case form lacks "cycling power" is ignored whatever the payload |
| `WahooKickrSnap.ShortPayloadRejected` | motivation/trainers/wahoo_kickr_snap.py:65-66 | a cycling-power payload shorter than 12 bytes gives NotEnoughData, so `set_power` is not reached |
| `WahooKickrSnap.ForwardedValue` | motivation/trainers/wahoo_kickr_snap.py:69-73 | a cycling-power payload of at least 12 bytes forwards the little-endian word at bytes 2-3 |
| `WahooKickrSnap.OnlyFrameBytesMatter` | motivation/trainers/wahoo_kickr_snap.py:69-73 | two payloads of at least 12 bytes that agree on their first 12 bytes have the same outcome |
| `WahooKickrSnap.OnlyPowerBytesMatter` | motivation/trainers/wahoo_kickr_snap.py:69-73 | of payloads of at least 12 bytes, only bytes 2 and 3 affect the outcome |
| `WahooKickrSnap.CaseInsensitive` | motivation/trainers/wahoo_kickr_snap.py:64 | descriptions that differ only in the case of ASCII letters have the same outcome |
| `WahooKickrSnap.UpperCaseDescription` | motivation/trainers/wahoo_kickr_snap.py:64 | ASCII upper-casing the description never changes the outcome |
| `WahooKickrSnap.SamplePayloadFields` | motivation/trainers/wahoo_kickr_snap.py:27-29 | the example frame unpacks to 0x14, 0, 0, 0x853A, 0xEA, 1, 0, 0x4BEC |
| `WahooKickrSnap.CyclingPowerDescription` | motivation/trainers/wahoo_kickr_snap.py:64 | the description "Cycling Power" is classified as a cycling-power service |
| `WahooKickrSnap.SamplePayloadForwardsZero` | motivation/trainers/wahoo_kickr_snap.py:73 | sent to a cycling-power service, the example frame forwards 0, not 34106 |
| `WahooKickrSnap.TruncatedSamplePayload` | motivation/trainers/wahoo_kickr_snap.py:65-66 | the example frame cut to 8 bytes gives NotEnoughData |
| `WahooKickrSnap.SampleNotification` | motivation/trainers/wahoo_kickr_snap.py:64-73 | end to end, the example frame of line 27 sent by the service described as "Cycling Power" forwards 0 |

## Left out

- The client lookup `get_service_with_characteristic` (line 56) is a call into the Bluetooth library. Its result is an input of type `Option<string>`: the service's description, or nothing.
- The power tracker (`set_power`, `get_effective_power`, lines 73-74) belongs to another component. The call to `set_power(v)` is the outcome `Power(v)`. Reading the effective power back is not modelled.
- All `print` output (lines 50, 58, 62, 66, 71, 74) is I/O. Only the hex rendering built for line 62 is modelled (`HexFormat`).
- The `SmartTrainer` base class and `__init__` (lines 5, 39-40) are plumbing whose source is not part of this model. `DEVICE_UUID` (line 37) is read only by device discovery.
- Python exceptions are not modelled. The handler is a total function. Apart from output, the only exception the core itself could raise is the unpack failure, and `UnpackPowerFrame` proves it cannot happen. Any other exception the outer `except` could catch would come from the lookup, the tracker or a failing `print`. A `print` that fails at line 62 ends the handling before the classifier, with no outcome, whereas the model gives one. A `print` that fails at line 50 escapes `notification_handler`. The model assumes output never fails. The outer `except` at line 48 catches only subclasses of `Exception`: a `KeyboardInterrupt` or `SystemExit` raised inside the handler (by the lookup or the tracker, say) propagates out of `notification_handler`. The model has no such exceptions.
- Native byte order: the model assumes little-endian. A big-endian host would read the 16-bit fields with their bytes swapped.
- StructLayout.ParseFormat: only the codes `B` and `H` are modelled. Other codes, repeat counts, byte-order prefixes and whitespace in formats are treated as unknown codes, because the decoder's format uses none of them.
- Text.Lower: lower-cases ASCII letters only. Python's `str.lower` also maps non-ASCII letters, and a few of them (for example U+212A KELVIN SIGN to 'k') to ASCII. None of those letters can complete the needle "cycling power", but the model does not prove that.
- Text.Upper: upper-cases ASCII letters only, so WahooKickrSnap.UpperCaseDescription and WahooKickrSnap.CaseInsensitive cover only ASCII case changes.
- WahooKickrSnap.UpperCaseDescription: does not hold for Python's `str.upper`. Take "cycl\u0131ng power", where U+0131 is the dotless i. Its `lower()` keeps the dotless i, so line 64 ignores it. Its `upper()` is "CYCLING POWER", which line 64 accepts. The lemma is about ASCII upper-casing only.
- Descriptions are strings of Unicode code points. Whether the Bluetooth stack can deliver a description that is not a string (so that `.lower()` would raise) is outside the model.
