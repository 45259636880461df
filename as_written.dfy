/** The live code of RFID.read() as it is written, where it departs from the
    evident intent that the rest of this model follows. Each definition here
    is paired with a lemma that exhibits the departure on a concrete input. */
module AsWritten {
  import opened Wrappers
  import opened Hex
  import opened Checksums
  import opened Frame
  import opened PyRfid

  /** The length test `index == 13`: decoding starts after thirteen bytes. */
  const AsWrittenFrameLength := 13

  /** receivedPacketData[13]: None stands for the IndexError of a list that
      holds fewer than fourteen bytes. */
  function AsWrittenEndMarkerSlot(packet: seq<Byte>): Option<Byte> {
    if |packet| > 13 then Some(packet[13]) else None
  }

  /** At the moment the live length test fires, the end marker slot it then
      reads does not exist yet. */
  lemma AsWrittenLengthTestReadsPastEnd(packet: seq<Byte>)
    requires |packet| == AsWrittenFrameLength
    ensures AsWrittenEndMarkerSlot(packet) == None
    ensures ReadOutcome(packet) == Failure(TransportTimeout)
  {
  }

  /** The live collection loop: insert each byte at `index`, count it, and
      stop at the length test `index == 13`. The packet it hands to the
      header test holds thirteen bytes, so its slot 13 does not exist. */
  method AsWrittenCollect(stream: seq<Byte>) returns (packet: seq<Byte>)
    requires |stream| >= AsWrittenFrameLength
    ensures packet == stream[..AsWrittenFrameLength]
    ensures AsWrittenEndMarkerSlot(packet) == None
  {
    packet := [];
    var index := 0;
    while true
      invariant 0 <= index < AsWrittenFrameLength
      invariant packet == stream[..index]
      decreases AsWrittenFrameLength - index
    {
      var fragment := stream[index];
      packet := packet[..index] + [fragment] + packet[index..];
      index := index + 1;
      if index == AsWrittenFrameLength {
        return;
      }
    }
  }

  /** The header test `a != START | b != END`. Python binds | tighter than !=
      and chains the comparisons, so it reads a != (START | b) and
      (START | b) != END. */
  predicate AsWrittenHeaderRejects(first: Byte, last: Byte) {
    var mid := Or(StartCode, last);
    first != mid && mid != EndCode
  }

  /** The same header test when rightShift(CODE, 8) is read as arithmetic,
      CODE / 256, which is 0 for both marker codes: it then reads
      a != (0 | b) and (0 | b) != 0. */
  predicate AsWrittenShiftedHeaderRejects(first: Byte, last: Byte) {
    var mid := Or(StartCode / 256, last);
    first != mid && mid != EndCode / 256
  }

  /** Under the arithmetic reading of the shift, the live header test
      rejects every frame whose markers are correct. */
  lemma AsWrittenShiftedHeaderRejectsCorrectFrame(frame: seq<Byte>)
    requires |frame| == FrameLength && frame[0] == StartCode && frame[13] == EndCode
    ensures AsWrittenShiftedHeaderRejects(frame[0], frame[13])
    ensures Decode(frame) != Failure(InvalidHeader)
  {
    Pow2ByteBits();
    assert OrBits(0, 0, 6) == 0;
    assert OrBits(0, 1, 7) == 1;
    assert Or(0, EndCode) == OrBits(0, 3, 8) == 0x03;
  }

  /** A frame that starts correctly but ends in 0x00 instead of 0x03 passes
      the live header test under either reading of the shift, while the
      intended test rejects it. */
  lemma AsWrittenHeaderAcceptsWrongEndMarker(frame: seq<Byte>)
    requires |frame| == FrameLength && frame[0] == StartCode && frame[13] == 0x00
    ensures !AsWrittenHeaderRejects(frame[0], frame[13])
    ensures !AsWrittenShiftedHeaderRejects(frame[0], frame[13])
    ensures Decode(frame) == Failure(InvalidHeader)
  {
    Pow2ByteBits();
    assert Or(0, 0x00) == OrBits(0, 0, 8) == 0;
    assert Or(StartCode, 0x00) == 0x02;
  }

  /** A frame that starts with 0x03 instead of 0x02 passes the live header
      test too, under either reading of the shift. */
  lemma AsWrittenHeaderAcceptsWrongStartMarker(frame: seq<Byte>)
    requires |frame| == FrameLength && frame[0] == EndCode && frame[13] == EndCode
    ensures !AsWrittenHeaderRejects(frame[0], frame[13])
    ensures !AsWrittenShiftedHeaderRejects(frame[0], frame[13])
    ensures Decode(frame) == Failure(InvalidHeader)
  {
    Pow2ByteBits();
    assert OrBits(0, 0, 6) == 0;
    assert OrBits(1, 1, 7) == 1;
    assert OrBits(0, 1, 7) == 1;
    assert Or(StartCode, EndCode) == OrBits(2, 3, 8) == 0x03;
    assert Or(0, EndCode) == OrBits(0, 3, 8) == 0x03;
  }

  /** packetChecksum after the live loop: each iteration overwrites it with
      leftShift(data[i], 8) | data[i + 1], so only i = 10 survives. The shift
      is data[i] * 256 and the | an addition, as data[i + 1] < 256. */
  function AsWrittenCalculated(packet: seq<Byte>): int
    requires |packet| == FrameLength
  {
    (packet[10] as int) * 256 + packet[11]
  }

  /** receivedChecksum as written: the raw checksum characters, shifted by 8. */
  function AsWrittenReceived(packet: seq<Byte>): int
    requires |packet| == FrameLength
  {
    (packet[11] as int) * 256 + packet[12]
  }

  predicate AsWrittenChecksumAccepts(packet: seq<Byte>)
    requires |packet| == FrameLength
  {
    AsWrittenCalculated(packet) == AsWrittenReceived(packet)
  }

  lemma Base256Digits(hi: Byte, lo: Byte, hi': Byte, lo': Byte)
    requires hi * 256 + lo == hi' * 256 + lo'
    ensures hi == hi' && lo == lo'
  {
    assert (hi * 256 + lo) / 256 == hi;
    assert (hi' * 256 + lo') / 256 == hi';
  }

  /** The live checksum test looks at three characters only: it passes exactly
      when the last data character and both checksum characters are equal,
      whatever the other nine data characters are. */
  lemma AsWrittenChecksumComparesThreeCharacters(packet: seq<Byte>)
    requires |packet| == FrameLength
    ensures AsWrittenChecksumAccepts(packet) <==> packet[10] == packet[11] == packet[12]
  {
    if AsWrittenChecksumAccepts(packet) {
      Base256Digits(packet[10], packet[11], packet[11], packet[12]);
    }
  }

  /** Data 0000000001 followed by its checksum 01 and the end marker: a
      correct frame that the live checksum test rejects. */
  lemma AsWrittenChecksumRejectsCorrectFrame(f: seq<Byte>)
    requires |f| == FrameLength && f[0] == StartCode && f[13] == EndCode
    requires forall i :: 1 <= i <= 9 ==> f[i] == 0x30
    requires f[10] == 0x31 && f[11] == 0x30 && f[12] == 0x31
    ensures Decode(f).Success?
    ensures !AsWrittenChecksumAccepts(f)
  {
    ZeroPrefixDecode(f, 1, 0, 1);
  }

  /** Data 0000000005 followed by the checksum characters 55 (the correct
      checksum is 05): a corrupted frame that the live checksum test accepts. */
  lemma AsWrittenChecksumAcceptsCorruptFrame(f: seq<Byte>)
    requires |f| == FrameLength && f[0] == StartCode && f[13] == EndCode
    requires forall i :: 1 <= i <= 9 ==> f[i] == 0x30
    requires f[10] == 0x35 && f[11] == 0x35 && f[12] == 0x35
    ensures Decode(f) == Failure(ChecksumMismatch)
    ensures AsWrittenChecksumAccepts(f)
  {
    ZeroPrefixDecode(f, 5, 5, 5);
  }

  /** The tag ID loop as written, range(2, 10) over the ten data characters. */
  function AsWrittenTagId(data: string): string
    requires |data| == DataLength
  {
    data[2..DataLength]
  }

  /** With the ID sliced as written, the tagType property always raises its
      'Invalid packet length!' error, even right after a successful read. */
  lemma AsWrittenTagIdBreaksTagType(data: string)
    requires |data| == DataLength
    ensures |AsWrittenTagId(data)| == 8
    ensures TagTypeOf(Some(AsWrittenTagId(data))) == Failure(InvalidLength)
  {
  }
}
