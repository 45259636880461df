# PyRfid frame decoder in Dafny

This project models the RFID reader library `PyRfid` of pam-rfid. Its class
`RFID` reads tags from a 125 kHz card reader on a serial line. One call of
`read()` is meant to work as follows, going by the comments at lines 102
and 111 of PyRfid.py and the reference block at lines 174-191. The live code
departs from this in the ways listed under "## Findings".

- It clears the stored tag ID and checksum.
- It takes bytes from the port one at a time into a fresh packet until a
  14-byte frame is collected.
- It checks the start marker `0x02` (`RFID_STARTCODE`) and the end marker
  `0x03` (`RFID_ENDCODE`).
- It decodes the twelve ASCII hex characters between the markers.
- It compares the XOR checksum of the five bytes built from the ten data
  characters with the received checksum byte built from the last two.
- Only after that comparison passes does it store the checksum and the tag
  ID. The `tagId`, `checksum` and `tagType` properties expose them.

The model is split into these modules:

- `Hex` (hex.dfy): bytes, nibbles, `int(c, 16)` as `HexNibble`, the reader's
  digit `HexDigit`, `(hi << 4) + lo` as `PairByte`, and bitwise XOR and OR
  defined bit by bit over naturals.
- `Checksums` (checksum.dfy): the checksum as a left fold over nibble pairs
  (`XorChecksum`). It also holds the reference loop as a method and proves
  that any single wrong nibble is detected. `XorChecksum` is defined for
  every length; only even lengths occur.
- `Frame` (frame.dfy): the constants, the error kinds and `Decode`, which
  checks markers, then hex digits, then the checksum. It also holds
  `BuildFrame` (the frame a reader sends for some data) with round trips in
  both directions, and `ReadOutcome`, one read over the bytes the port will
  deliver.
- `PyRfid` (rfid.dfy): class `RFID`. Its fields are the stored tag ID, the
  stored checksum and the port's pending bytes. It has `Read`, the
  accessors, `ParsePacket` (the part of `read()` after a frame is
  collected), `TagTypeOf` and `IdDigits`.
- `AsWritten` (as_written.dfy): the four places where the live code departs
  from the evident intent, each shown on a concrete input (see Findings).
- `Scenarios` (scenarios.dfy): a round tag frame decoded end to end, a
  rectangular tag's type, and a read cut short by a timeout.

Modelling decisions:

- The serial port is the field `incoming: seq<Byte>`, in receipt order.
  When it is exhausted, the port's `read()` returns an empty fragment (its
  2-second timeout). The model reports that as `TransportTimeout` and
  abandons the partial packet.
- A frame is 14 bytes, as the comment at PyRfid.py:102 says and as the read
  of slot `[13]` needs. The live test `index == 13` is a finding.
- The markers are compared directly with `0x02` and `0x03`. The model
  takes `utilities.rightShift(CODE, 8)` to be the identity, yielding `CODE`,
  not the division `CODE / 256`, which is 0 for both codes. It takes
  `utilities.leftShift(x, n)` to be `x * 2^n`. The `utilities` module is not
  part of this model. `AsWritten.AsWrittenShiftedHeaderRejects` states the
  live header test under the division reading too.
- The stored tag ID is the ten data characters, at wire positions 1 to 10.
  Three places in the source agree on this:
  - the `tagId` docstring says "5 bytes" (ten hex characters);
  - the comment at line 111 says "package payload (10 bytes)";
  - `tagType` demands exactly 10 characters.
  The reference block's `ID[4:10]`, the card number digits, is `IdDigits`.
  The live loop `range(2, 10)` stores 8 characters, which is a finding.
- The tag type follows the reference formula at line 181:
  `(ID[1] << 8) + (ID[2] << 4) + ID[3]`. A round tag `0800…` gives `0x800`;
  a rectangular tag `0300…` gives `0x300`.
- Hex digits are those `int(c, 16)` accepts: `0-9`, `A-F`, `a-f`. The
  reader itself sends upper case.
- Errors become values: `Rejected(error)` for each exception `read()`
  raises, `Accepted` for `return True`, and a `Result` for `tagType`.

The live `read()` also cannot run as written, for two reasons. The model
follows the evident intent in each case and records it here:

- `RFID_STARTCODE` and `RFID_ENDCODE` are used unqualified inside the method
  (a `NameError` in Python).
- The payload bytes are converted to integers and then concatenated onto a
  string (a `TypeError`).

## Model

| member | source | states |
|---|---|---|
| `Hex.HexNibble` | src/usr/lib/python2.7/dist-packages/PyRfid/PyRfid.py:177 | `int(c, 16)` succeeds exactly on hex digits; the value it gives is the one whose reader digit is `c` (upper case) or `c` without its case bit (lower case) |
| `Hex.HexDigit` | src/usr/lib/python2.7/dist-packages/PyRfid/PyRfid.py:177 | the reader's character for a nibble is an upper-case hex digit, 7-bit ASCII |
| `Hex.HexDigitRoundTrip` | src/usr/lib/python2.7/dist-packages/PyRfid/PyRfid.py:177 | decoding the reader's digit for a nibble gives that nibble back |
| `Hex.PairByte` | src/usr/lib/python2.7/dist-packages/PyRfid/PyRfid.py:177 | `(hi << 4) + lo` is a byte whose high and low nibbles are `hi` and `lo` |
| `Hex.XorInjective` | src/usr/lib/python2.7/dist-packages/PyRfid/PyRfid.py:177 | XOR-ing the same byte onto two different bytes, on either side, keeps them different |
| `Hex.XorCancel` | src/usr/lib/python2.7/dist-packages/PyRfid/PyRfid.py:177 | XOR-ing the same byte twice restores the original byte |
| `Hex.Xor` | src/usr/lib/python2.7/dist-packages/PyRfid/PyRfid.py:177 | reference definition of Python's `^` on bytes, bit by bit over the eight bits; its properties are `Hex.XorCancel`, `Hex.XorZero` and `Hex.XorInjective` |
| `Hex.Or` | src/usr/lib/python2.7/dist-packages/PyRfid/PyRfid.py:106 | reference definition of Python's bitwise or on bytes, bit by bit; it is used only by the as-written header test, and `AsWritten.AsWrittenHeaderAcceptsWrongEndMarker` and `AsWrittenHeaderAcceptsWrongStartMarker` evaluate it |
| `Checksums.CalculateChecksum` | src/usr/lib/python2.7/dist-packages/PyRfid/PyRfid.py:176-177 | the reference loop over I = 0, 2, 4, 6, 8, starting from 0, computes the XOR checksum of the five nibble-pair bytes of the ten data nibbles, a value in 0..255 |
| `Checksums.XorChecksum` | src/usr/lib/python2.7/dist-packages/PyRfid/PyRfid.py:176-177 | reference definition of the checksum: the XOR of the nibble-pair bytes, folded from the left starting from 0; `CalculateChecksum` is proved equal to it and `ChecksumDetectsOneNibble` is about it |
| `Checksums.ChecksumHolds` | src/usr/lib/python2.7/dist-packages/PyRfid/PyRfid.py:119-122 | reference definition of the intended integrity test: the checksum of the ten data nibbles equals the byte of the two checksum nibbles; `OneNibbleBreaksChecksum` and `Frame.DecodeChecksumRule` are about it |
| `Checksums.ChecksumDetectsOneNibble` | src/usr/lib/python2.7/dist-packages/PyRfid/PyRfid.py:176-177 | changing any one nibble of the checksummed data changes the checksum |
| `Checksums.OneNibbleBreaksChecksum` | src/usr/lib/python2.7/dist-packages/PyRfid/PyRfid.py:119-123 | a single wrong nibble among all twelve, data or checksum, breaks the rule "checksum of the data equals the received byte" |
| `Frame.DecodeHex` | src/usr/lib/python2.7/dist-packages/PyRfid/PyRfid.py:177 | hex-decoding a string succeeds exactly when every character is a hex digit, and then gives one nibble per character, each the value of that character |
| `Frame.MarkersValid` | src/usr/lib/python2.7/dist-packages/PyRfid/PyRfid.py:106 | reference definition of the intended header test: the first byte is 0x02 (`RFID_STARTCODE`) and the last is 0x03 (`RFID_ENDCODE`); `Frame.Decode` fails with InvalidHeader exactly when it is false |
| `Frame.Decode` | src/usr/lib/python2.7/dist-packages/PyRfid/PyRfid.py:105-135 | a collected frame fails with InvalidHeader exactly when a marker is wrong; failing that, with InvalidHexDigit exactly when a payload character is not hex; a record comes out only when the checksum check passed, and it is checked and holds the ten data characters |
| `Frame.DecodeChecksumRule` | src/usr/lib/python2.7/dist-packages/PyRfid/PyRfid.py:119-126 | a frame with good markers and hex payload is accepted exactly when the data's XOR checksum equals the received checksum byte; otherwise the error is ChecksumMismatch; the stored checksum is the received byte |
| `Frame.BuildFrameAccepted` | src/usr/lib/python2.7/dist-packages/PyRfid/PyRfid.py:105-137 | a frame built from any ten data nibbles with their computed checksum is accepted, and the record is their characters with that checksum |
| `Frame.AcceptedFrameIsBuilt` | src/usr/lib/python2.7/dist-packages/PyRfid/PyRfid.py:105-137 | every accepted upper-case frame is exactly the frame built from its record's nibbles, so decoding loses nothing |
| `Frame.CorruptedNibbleRejected` | src/usr/lib/python2.7/dist-packages/PyRfid/PyRfid.py:122-123 | replacing any payload character of an accepted frame with a hex digit of another value makes the frame fail with ChecksumMismatch |
| `Frame.Consumed` | src/usr/lib/python2.7/dist-packages/PyRfid/PyRfid.py:90-103 | one read takes a whole frame from the port, or all it has when it times out first |
| `Frame.ReadOutcome` | src/usr/lib/python2.7/dist-packages/PyRfid/PyRfid.py:90-107 | a read is a timeout exactly when fewer than 14 bytes arrive, never a header or checksum error; every record it yields is checked |
| `Frame.ReadOutcomeOfFrame` | src/usr/lib/python2.7/dist-packages/PyRfid/PyRfid.py:102-103 | framing is positional: bytes after the first 14 do not influence the read, which consumes exactly 14 |
| `PyRfid.TagTypeOf` | src/usr/lib/python2.7/dist-packages/PyRfid/PyRfid.py:157-162 | tagType fails when nothing is stored and fails with InvalidLength exactly when the stored ID is not 10 characters; a type it returns is below 0x1000, and its three nibbles are the values of ID characters 1 to 3 |
| `PyRfid.TagTypeFromNibbles` | src/usr/lib/python2.7/dist-packages/PyRfid/PyRfid.py:181 | conversely, a 10-character ID whose characters 1 to 3 decode to a, b, c has type (a << 8) + (b << 4) + c |
| `PyRfid.TagTypeOfChecked` | src/usr/lib/python2.7/dist-packages/PyRfid/PyRfid.py:157-158 | the ID of every checked record passes tagType's length test, so tagType never raises after a successful read |
| `PyRfid.TagTypeIgnoresFirstCharacter` | src/usr/lib/python2.7/dist-packages/PyRfid/PyRfid.py:181 | changing character 0 of a stored ID never changes its type, since the formula reads characters 1 to 3 only |
| `PyRfid.IdDigits` | src/usr/lib/python2.7/dist-packages/PyRfid/PyRfid.py:188 | the card number is the six characters after the four type characters |
| `PyRfid.RFID.constructor` | src/usr/lib/python2.7/dist-packages/PyRfid/PyRfid.py:43-65 | a new reader stores no tag ID and no checksum and is connected to the given byte stream |
| `PyRfid.RFID.TagId` | src/usr/lib/python2.7/dist-packages/PyRfid/PyRfid.py:144-147 | the tagId property, the stored ID; `RFID.Read` states what it holds after every read |
| `PyRfid.RFID.Checksum` | src/usr/lib/python2.7/dist-packages/PyRfid/PyRfid.py:168-172 | the checksum property, the stored received checksum; `RFID.Read` states what it holds after every read |
| `PyRfid.RFID.TagType` | src/usr/lib/python2.7/dist-packages/PyRfid/PyRfid.py:155-158 | the tagType property over the stored ID; `PyRfid.TagTypeOf` states its results and `PyRfid.TagTypeDefined` that it is defined whenever an ID is stored |
| `PyRfid.RFID.Read` | src/usr/lib/python2.7/dist-packages/PyRfid/PyRfid.py:83-137 | read starts from a clean slate; collects bytes in receipt order into a packet whose length is the index; consumes a frame or times out; on success returns Accepted and stores exactly the decoded checksum and tag ID; on every failure stores nothing; the object invariant (nothing stored, or a checked record) holds afterwards; tagType is defined after success |
| `PyRfid.TagTypeDefined` | src/usr/lib/python2.7/dist-packages/PyRfid/PyRfid.py:155-158 | a reader whose object invariant holds and which stores a tag ID always has a tag type: tagType never raises while an ID is stored |
| `PyRfid.ParsePacket` | src/usr/lib/python2.7/dist-packages/PyRfid/PyRfid.py:105-137 | the marker test, the payload loop, the checksum loop and the tag ID loop together compute exactly the decoding of the packet |
| `PyRfid.ReadSameFrameTwice` | src/usr/lib/python2.7/dist-packages/PyRfid/PyRfid.py:83-137 | reading the same frame twice in a row gives the same outcome, tag ID and checksum, and succeeds exactly when the frame decodes |
| `AsWritten.AsWrittenLengthTestReadsPastEnd` | src/usr/lib/python2.7/dist-packages/PyRfid/PyRfid.py:102-106 | when `index == 13` fires, slot 13 does not exist; thirteen bytes are a timeout in the intended model |
| `AsWritten.AsWrittenCollect` | src/usr/lib/python2.7/dist-packages/PyRfid/PyRfid.py:93-106 | for a port that delivers at least 13 bytes, the live loop, inserting each byte at `index` and stopping at `index == 13`, hands over exactly the first 13 bytes, whose slot 13 does not exist |
| `AsWritten.AsWrittenEndMarkerSlot` | src/usr/lib/python2.7/dist-packages/PyRfid/PyRfid.py:106 | reference definition of `receivedPacketData[13]` as written: the byte in slot 13, or None for the IndexError of a shorter list; used by `AsWrittenCollect` and `AsWrittenLengthTestReadsPastEnd` |
| `AsWritten.AsWrittenHeaderRejects` | src/usr/lib/python2.7/dist-packages/PyRfid/PyRfid.py:106 | reference definition of the live header test as Python parses it, first != (START or-ed with last) and (START or-ed with last) != END; the two header lemmas exhibit what it lets through |
| `AsWritten.AsWrittenHeaderAcceptsWrongEndMarker` | src/usr/lib/python2.7/dist-packages/PyRfid/PyRfid.py:106 | the live header test lets a frame starting with 0x02 and ending in 0x00 through, whether the marker shift is read as identity or as division; the intended test rejects it |
| `AsWritten.AsWrittenHeaderAcceptsWrongStartMarker` | src/usr/lib/python2.7/dist-packages/PyRfid/PyRfid.py:106 | the live header test lets a frame starting and ending with 0x03 through, under either reading of the marker shift; the intended test rejects it |
| `AsWritten.AsWrittenShiftedHeaderRejects` | src/usr/lib/python2.7/dist-packages/PyRfid/PyRfid.py:106 | reference definition of the live header test with `rightShift(CODE, 8)` read as division, `CODE / 256`: first != (0 or-ed with last) and (0 or-ed with last) != 0; the header lemmas evaluate it |
| `AsWritten.AsWrittenShiftedHeaderRejectsCorrectFrame` | src/usr/lib/python2.7/dist-packages/PyRfid/PyRfid.py:106 | under the division reading of the shift, the live header test rejects every frame with markers 0x02 and 0x03, which the intended test lets through |
| `AsWritten.AsWrittenCalculated` | src/usr/lib/python2.7/dist-packages/PyRfid/PyRfid.py:112-116 | reference definition of `packetChecksum` after the live loop: only the pass i = 10 survives, wire bytes 10 and 11 as one 16-bit value; used by `AsWrittenChecksumComparesThreeCharacters` |
| `AsWritten.AsWrittenReceived` | src/usr/lib/python2.7/dist-packages/PyRfid/PyRfid.py:119-120 | reference definition of `receivedChecksum` as written: wire bytes 11 and 12 as one 16-bit value; used by `AsWrittenChecksumComparesThreeCharacters` |
| `AsWritten.AsWrittenChecksumAccepts` | src/usr/lib/python2.7/dist-packages/PyRfid/PyRfid.py:122 | reference definition of the live checksum comparison; `AsWrittenChecksumComparesThreeCharacters`, `AsWrittenChecksumRejectsCorrectFrame` and `AsWrittenChecksumAcceptsCorruptFrame` characterise it |
| `AsWritten.AsWrittenChecksumComparesThreeCharacters` | src/usr/lib/python2.7/dist-packages/PyRfid/PyRfid.py:112-122 | the live checksum test passes exactly when wire bytes 10, 11 and 12 are equal |
| `Frame.ZeroPrefixDecode` | src/usr/lib/python2.7/dist-packages/PyRfid/PyRfid.py:119-126 | a frame with data 000000000d and checksum characters h l is accepted exactly when the byte h l equals d; otherwise it fails with ChecksumMismatch |
| `AsWritten.AsWrittenChecksumRejectsCorrectFrame` | src/usr/lib/python2.7/dist-packages/PyRfid/PyRfid.py:112-123 | a correct frame (data 0000000001, checksum 01) fails the live checksum test |
| `AsWritten.AsWrittenChecksumAcceptsCorruptFrame` | src/usr/lib/python2.7/dist-packages/PyRfid/PyRfid.py:112-123 | a corrupt frame (data 0000000005, checksum 55) passes the live checksum test; the intended test rejects it |
| `AsWritten.AsWrittenTagId` | src/usr/lib/python2.7/dist-packages/PyRfid/PyRfid.py:129-132 | reference definition of the live tag ID loop `range(2, 10)` over the ten data characters; `AsWrittenTagIdBreaksTagType` is about it |
| `AsWritten.AsWrittenTagIdBreaksTagType` | src/usr/lib/python2.7/dist-packages/PyRfid/PyRfid.py:129-135 | the live `range(2, 10)` slice stores 8 characters, so tagType always fails with InvalidLength |
| `Scenarios.RoundTagDecoded` | src/usr/lib/python2.7/dist-packages/PyRfid/PyRfid.py:176-188 | a frame whose bytes are STX 0800001234 2E ETX is accepted, with stored ID 0800001234 and checksum 0x2E |
| `Scenarios.RoundTagFields` | src/usr/lib/python2.7/dist-packages/PyRfid/PyRfid.py:150 | the round tag's type is 0x800 and its card digits are 001234 |
| `Scenarios.RectangleTagType` | src/usr/lib/python2.7/dist-packages/PyRfid/PyRfid.py:150 | a stored ID starting 0300 has type 0x300 |
| `Scenarios.ReadCutShort` | src/usr/lib/python2.7/dist-packages/PyRfid/PyRfid.py:93-95 | a port that times out after 13 bytes gives a timeout and stores nothing |
| `Scenarios.ReadRoundTag` | src/usr/lib/python2.7/dist-packages/PyRfid/PyRfid.py:144-172 | after a reader connected to the round tag frame reads it, the tagId, checksum and tagType accessors give 0800001234, 0x2E and 0x800 |

## Left out

- Serial port setup and teardown (`serial.Serial`, baud rate, byte size, the 2-second timeout, open and close in `__init__` and `__del__`): this is I/O. The port is a sequence of pending bytes, and its timeout is the end of that sequence.
- The `utilities` helpers `stringToByte`, `leftShift` and `rightShift`: that module is not part of this model. Bytes are integers 0..255. Left shifts are multiplications by powers of 2. The right shifts of the marker codes at line 106 are taken as the identity, not as division by 256, so the markers are compared directly.
- A timeout inside a read: the live loop (lines 93-100) inserts the empty fragment into the packet as if it were a byte, keeps reading, and still stops at 13 entries. The model instead ends the read with `TransportTimeout` and abandons the partial packet; `AsWritten.AsWrittenCollect` covers only a port that delivers at least 13 bytes.
- PyRfid.TagTypeOf: returns the integer of the tag type, not the string that Python's `hex()` makes of it. It follows the reference formula at line 181, on ID characters 1 to 3, so character 0 never counts (`TagTypeIgnoresFirstCharacter`) and every type is below 0x1000. The live property at lines 160-161 instead joins characters 0 and 1 as a string and passes it to `hex()`, which raises TypeError; the docstring at lines 150-152 promises a 2-byte value such as `0800`. Under that 2-byte reading an ID `1800000000` would have type 0x1800, while the model gives 0x800. The model does not follow lines 160-161.
- Python runtime failures of the live code (the unqualified class constants, string-plus-integer concatenation, `hex()` applied to a string): the model follows the evident intent instead.
- Rendering the card number as a 10-digit decimal string, and a raw 12-character tag string: neither exists in this class.
- The PAM modules (`src/pam_rfid.py` and its three copies): glue over PAM, syslog, the configuration file and SHA-256.
- `setup.py`, `src/setup.py`, `example-read.py` and the `__main__` smoke test at the end of PyRfid.py: packaging, a console demo and hardware I/O.

## Findings

| source | as written | input that shows it | evidently intended | confidence | as-written member | corrected member |
|---|---|---|---|---|---|---|
| src/usr/lib/python2.7/dist-packages/PyRfid/PyRfid.py:103-106 | decoding starts at `index == 13`, then reads `receivedPacketData[13]` | any 13 received bytes: slot 13 does not exist (IndexError) | decode once 14 bytes are collected | not executed; high | `AsWritten.AsWrittenCollect` | `Frame.ReadOutcome` |
| src/usr/lib/python2.7/dist-packages/PyRfid/PyRfid.py:106 | the two marker tests joined by the bitwise-or operator parse as one chained comparison, first != (START or-ed with last) != END | first byte 0x02, last byte 0x00: passes; so does first 0x03, last 0x03; both pass whether `rightShift(CODE, 8)` is CODE or 0, and when it is 0 the test also rejects every correct 0x02 ... 0x03 frame | reject unless first is 0x02 and last is 0x03 | not executed; high | `AsWritten.AsWrittenHeaderAcceptsWrongEndMarker` | `Frame.Decode` |
| src/usr/lib/python2.7/dist-packages/PyRfid/PyRfid.py:112-123 | each loop pass overwrites `packetChecksum`; raw characters shifted by 8 | data 0000000005 with checksum characters 55: passes | XOR of the five nibble-pair bytes compared with the received nibble pair | not executed; high | `AsWritten.AsWrittenChecksumAcceptsCorruptFrame` | `Frame.CorruptedNibbleRejected` |
| src/usr/lib/python2.7/dist-packages/PyRfid/PyRfid.py:131-132 | the tag ID is `packetPayload[2..9]`, 8 characters | any accepted frame: tagType then raises 'Invalid packet length!' | store the ten data characters that tagType expects | not executed; medium | `AsWritten.AsWrittenTagIdBreaksTagType` | `PyRfid.TagTypeOfChecked` |
