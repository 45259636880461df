/** Concrete reads: a round tag frame worked through the whole decoder, a
    rectangular tag's type, and a read cut short by a timeout. */
module Scenarios {
  import opened Wrappers
  import opened Hex
  import opened Checksums
  import opened Frame
  import opened PyRfid

  /** The frame of a round tag (type 0800) with card digits 001234; the XOR
      of 08, 00, 00, 12 and 34 is 2E. */
  predicate IsRoundTagFrame(f: seq<Byte>) {
    //      STX               '0'             '8'             '0'             '0'
    && |f| == FrameLength && f[0] == 0x02 && f[1] == 0x30 && f[2] == 0x38 && f[3] == 0x30 && f[4] == 0x30
    //      '0'             '0'             '1'             '2'             '3'             '4'
    && f[5] == 0x30 && f[6] == 0x30 && f[7] == 0x31 && f[8] == 0x32 && f[9] == 0x33 && f[10] == 0x34
    //      '2'              'E'              ETX
    && f[11] == 0x32 && f[12] == 0x45 && f[13] == 0x03
  }

  /** The round tag frame as the reader sends it. */
  function RoundTagFrame(): (f: seq<Byte>)
    ensures IsRoundTagFrame(f)
  {
    [0x02, 0x30, 0x38, 0x30, 0x30, 0x30, 0x30, 0x31, 0x32, 0x33, 0x34, 0x32, 0x45, 0x03]
  }

  lemma XorRoundTagBytes()
    ensures Xor(0x08, 0x12) == 0x1A && Xor(0x1A, 0x34) == 0x2E
  {
    Pow2ByteBits();
    XorBitsZero(1, 4);
    assert XorBits(1, 2, 5) == 3;
    assert XorBits(2, 4, 6) == 6;
    assert XorBits(4, 9, 7) == 13;
    assert XorBits(8, 18, 8) == 26;
    XorBitsZero(1, 3);
    assert XorBits(1, 3, 4) == 2;
    assert XorBits(3, 6, 5) == 5;
    assert XorBits(6, 13, 6) == 11;
    assert XorBits(13, 26, 7) == 23;
    assert XorBits(26, 52, 8) == 46;
  }

  lemma XorEightZero()
    ensures Xor(0x08, 0) == 0x08
  {
    Pow2ByteBits();
    XorBitsCommutes(0x08, 0, ByteBits);
    XorBitsZero(0x08, ByteBits);
  }

  /** The checksum of the round tag's data nibbles 0800001234 is 0x2E. */
  lemma RoundTagChecksum(data: seq<Nibble>)
    requires data == [0, 8] + [0, 0] + [0, 0] + [1, 2] + [3, 4]
    ensures XorChecksum(data) == 0x2E
  {
    var p1: seq<Nibble> := [0, 8];
    var p2 := p1 + [0, 0];
    var p3 := p2 + [0, 0];
    var p4 := p3 + [1, 2];
    ChecksumAppend([], 0, 8);
    assert [] + [0, 8] == p1;
    XorZero(0x08);
    ChecksumAppend(p1, 0, 0);
    XorEightZero();
    ChecksumAppend(p2, 0, 0);
    XorRoundTagBytes();
    ChecksumAppend(p3, 1, 2);
    ChecksumAppend(p4, 3, 4);
  }

  /** The payload of the round tag frame decodes to the nibbles 0800001234 2E. */
  lemma RoundTagNibbles(f: seq<Byte>)
    requires IsRoundTagFrame(f)
    ensures DecodeHex(PayloadText(f)).Some?
    ensures PayloadNibbles(f)[..DataLength] == [0, 8] + [0, 0] + [0, 0] + [1, 2] + [3, 4]
    ensures PayloadNibbles(f)[10] == 2 && PayloadNibbles(f)[11] == 14
  {
    assert PayloadIsHex(f);
    PayloadIsHexDecodes(f);
    var n := PayloadNibbles(f);
    assert n[0] == 0 && n[1] == 8 && n[2] == 0 && n[3] == 0 && n[4] == 0;
    assert n[5] == 0 && n[6] == 1 && n[7] == 2 && n[8] == 3 && n[9] == 4;
    assert n[10] == 2 && n[11] == 14;
  }

  /** The data characters of the round tag frame are 0800001234. */
  lemma RoundTagText(f: seq<Byte>)
    requires IsRoundTagFrame(f)
    ensures PayloadText(f)[..DataLength] == "0800001234"
  {
    var text := PayloadText(f)[..DataLength];
    assert forall i :: 0 <= i < DataLength ==> text[i] == "0800001234"[i];
  }

  /** The round tag frame is accepted: the stored ID is its ten data
      characters and the checksum 0x2E. */
  lemma RoundTagDecoded(f: seq<Byte>)
    requires IsRoundTagFrame(f)
    ensures Decode(f) == Success(TagRecord("0800001234", 0x2E))
  {
    RoundTagNibbles(f);
    var n := PayloadNibbles(f);
    RoundTagChecksum(n[..DataLength]);
    assert PairByte(n[10], n[11]) == 0x2E;
    assert ChecksumHolds(n);
    DecodeChecksumRule(f);
    RoundTagText(f);
  }

  /** Its tag type is 0x800 and its card digits are 001234. */
  lemma RoundTagFields()
    ensures TagTypeOf(Some("0800001234")) == Success(0x800)
    ensures IdDigits("0800001234") == "001234"
  {
    TagTypeFromNibbles("0800001234", 8, 0, 0);
  }

  /** A rectangular tag's stored ID 0300... has type 0x300. */
  lemma RectangleTagType(tagId: string)
    requires |tagId| == DataLength && tagId[..4] == "0300"
    ensures TagTypeOf(Some(tagId)) == Success(0x300)
  {
    assert tagId[1] == tagId[..4][1] == '3';
    assert tagId[2] == tagId[..4][2] == '0';
    assert tagId[3] == tagId[..4][3] == '0';
    TagTypeFromNibbles(tagId, 3, 0, 0);
  }

  /** A port that times out after thirteen bytes of the round tag frame gives
      a timeout, not a header or checksum error, and stores nothing. */
  method ReadCutShort() returns (status: ReadStatus, id: Option<string>, sum: Option<Byte>)
    ensures status == Rejected(TransportTimeout) && id == None && sum == None
  {
    var reader := new RFID(RoundTagFrame()[..13]);
    status := reader.Read();
    id, sum := reader.TagId(), reader.Checksum();
  }

  /** Reading the round tag frame stores its record, and the accessors give it back. */
  method ReadRoundTag(frame: seq<Byte>)
    returns (status: ReadStatus, id: Option<string>, sum: Option<Byte>, tagType: Result<int, TagTypeError>)
    requires IsRoundTagFrame(frame)
    ensures status == Accepted && id == Some("0800001234") && sum == Some(0x2E)
    ensures tagType == Success(0x800)
  {
    RoundTagDecoded(frame);
    RoundTagFields();
    ReadOutcomeOfFrame(frame, []);
    assert frame + [] == frame;
    var reader := new RFID(frame);
    status := reader.Read();
    id, sum, tagType := reader.TagId(), reader.Checksum(), reader.TagType();
  }
}
