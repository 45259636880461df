/** The reader object of PyRfid.py: class RFID, its read() and the tagId,
    tagType and checksum properties. */
module PyRfid {
  import opened Wrappers
  import opened Hex
  import opened Checksums
  import opened Frame

  /** What read() ends with: True, or one of the exceptions it raises. */
  datatype ReadStatus = Accepted | Rejected(error: ReadError)

  /** Why the tagType property raises instead of returning a value. */
  datatype TagTypeError =
    | NoTagRead      // no successful read has stored an ID (len(None) raises)
    | InvalidLength  // 'Invalid packet length!': the stored ID is not 10 characters
    | NotHex         // int(c, 16) raised ValueError on a type character

  /** The tag type read from a stored ID: (ID[1] << 8) + (ID[2] << 4) + ID[3],
      the nibbles after the leading one (0800 gives 0x800 for a round tag,
      0300 gives 0x300 for a rectangular one). */
  function TagTypeOf(tagId: Option<string>): (r: Result<int, TagTypeError>)
    ensures r == Failure(NoTagRead) <==> tagId.None?
    ensures r == Failure(InvalidLength) <==> tagId.Some? && |tagId.value| != DataLength
    ensures r.Success? ==> |tagId.value| == DataLength && 0 <= r.value < 0x1000
    ensures r.Success? ==>
      && HexNibble(tagId.value[1]) == Some(r.value / 256)
      && HexNibble(tagId.value[2]) == Some(r.value / 16 % 16)
      && HexNibble(tagId.value[3]) == Some(r.value % 16)
  {
    match tagId
    case None => Failure(NoTagRead)
    case Some(id) =>
      if |id| != DataLength then Failure(InvalidLength)
      else
        match DecodeHex(id[1..4])
        case None => Failure(NotHex)
        case Some(t) =>
          assert id[1..4][0] == id[1] && id[1..4][1] == id[2] && id[1..4][2] == id[3];
          TypeDigits(t[0], t[1], t[2]);
          var hi, mid, lo: int := t[0], t[1], t[2];
          Success(hi * 256 + mid * 16 + lo)
  }

  /** The three type nibbles are the base-16 digits of the tag type. */
  lemma TypeDigits(a: Nibble, b: Nibble, c: Nibble)
    ensures var v := a * 256 + b * 16 + c;
      0 <= v < 0x1000 && v / 256 == a && v / 16 % 16 == b && v % 16 == c
  {
    var v := a * 256 + b * 16 + c;
    var q := PairByte(a, b);
    assert v == q * 16 + c;
    assert v / 16 == q;
    assert v == a * 256 + (b * 16 + c);
  }

  /** The converse of TagTypeOf's contract: a ten-character ID whose
      characters 1 to 3 are hex digits has the type those nibbles spell. */
  lemma TagTypeFromNibbles(tagId: string, a: Nibble, b: Nibble, c: Nibble)
    requires |tagId| == DataLength
    requires HexNibble(tagId[1]) == Some(a) && HexNibble(tagId[2]) == Some(b) && HexNibble(tagId[3]) == Some(c)
    ensures TagTypeOf(Some(tagId)) == Success(a * 256 + b * 16 + c)
  {
    var t := tagId[1..4];
    assert t[0] == tagId[1] && t[1] == tagId[2] && t[2] == tagId[3];
    var m := DecodeHex(t).value;
    assert m == [a, b, c];
  }

  /** Character 0 of a stored ID plays no part in its type: the formula
      reads characters 1 to 3 only. */
  lemma TagTypeIgnoresFirstCharacter(tagId: string, c: char)
    requires |tagId| == DataLength
    ensures TagTypeOf(Some(tagId[0 := c])) == TagTypeOf(Some(tagId))
  {
    assert tagId[0 := c][1..4] == tagId[1..4];
  }

  /** The card number characters of a stored ID: ID[4:10] in the reference block. */
  function IdDigits(tagId: string): (r: string)
    requires |tagId| == DataLength
    ensures |r| == 6 && tagId[..4] + r == tagId
  {
    tagId[4..]
  }

  /** The tag type of every checked record is defined: after a successful read
      the tagType property never raises. */
  lemma TagTypeOfChecked(rec: TagRecord)
    requires Checked(rec)
    ensures TagTypeOf(Some(rec.tagId)).Success?
  {
    var n := DecodeHex(rec.tagId).value;
    assert forall i :: 1 <= i < 4 ==> IsHexDigit(rec.tagId[i]);
    assert forall i :: 0 <= i < 3 ==> rec.tagId[1..4][i] == rec.tagId[i + 1];
  }

  class RFID {
    /** __tagId: the data characters of the last successful read, or None. */
    var storedTagId: Option<string>

    /** __checksum: the received checksum of the last successful read, or None. */
    var storedChecksum: Option<Byte>

    /** The bytes the serial port will deliver, in receipt order; when it runs
        out, the port's read() returns an empty fragment (a timeout). */
    var incoming: seq<Byte>

    /** Either nothing is stored, or a record that passed the checksum test. */
    ghost predicate Valid()
      reads this
    {
      && storedTagId.Some? == storedChecksum.Some?
      && (storedTagId.Some? ==> Checked(TagRecord(storedTagId.value, storedChecksum.value)))
    }

    /** A reader connected to a port that will deliver `stream`. */
    constructor (stream: seq<Byte>)
      ensures Valid()
      ensures storedTagId == None && storedChecksum == None && incoming == stream
    {
      storedTagId := None;
      storedChecksum := None;
      incoming := stream;
    }

    /** The tagId property. */
    function TagId(): Option<string>
      reads this
    {
      storedTagId
    }

    /** The checksum property. */
    function Checksum(): Option<Byte>
      reads this
    {
      storedChecksum
    }

    /** The tagType property. */
    function TagType(): Result<int, TagTypeError>
      reads this
    {
      TagTypeOf(storedTagId)
    }

    /** read(): clears the stored tag, takes bytes one at a time into a fresh
        packet until a whole frame is collected, checks the markers, the hex
        payload and the checksum, and only then stores checksum and tag ID. */
    method Read() returns (status: ReadStatus)
      modifies this
      ensures Valid()
      ensures incoming == old(incoming)[Consumed(old(incoming))..]
      ensures match ReadOutcome(old(incoming))
        case Success(rec) =>
          status == Accepted && TagId() == Some(rec.tagId) && Checksum() == Some(rec.checksum)
        case Failure(e) =>
          status == Rejected(e) && TagId() == None && Checksum() == None
      ensures status == Accepted ==> TagType().Success?
    {
      storedTagId := None;
      storedChecksum := None;
      var packet: seq<Byte> := [];
      var index := 0;

      while index < FrameLength
        invariant 0 <= index <= FrameLength && index <= |old(incoming)|
        invariant |packet| == index
        invariant packet == old(incoming)[..index]
        invariant incoming == old(incoming)[index..]
        invariant storedTagId == None && storedChecksum == None
      {
        if incoming == [] {
          // the port timed out: the partial packet is abandoned
          return Rejected(TransportTimeout);
        }
        var fragment := incoming[0];
        incoming := incoming[1..];
        packet := packet[..index] + [fragment] + packet[index..];
        index := index + 1;
      }
      assert packet == old(incoming)[..FrameLength];

      var parsed := ParsePacket(packet);
      match parsed
      case Failure(e) =>
        status := Rejected(e);
      case Success(rec) =>
        storedChecksum := Some(rec.checksum);
        storedTagId := Some(rec.tagId);
        TagTypeOfChecked(rec);
        status := Accepted;
    }
  }

  /** A reader that holds a tag ID can always give its type: the object
      invariant keeps only checked records, whose IDs pass tagType's tests. */
  lemma TagTypeDefined(r: RFID)
    requires r.Valid() && r.TagId().Some?
    ensures r.TagType().Success?
  {
    TagTypeOfChecked(TagRecord(r.storedTagId.value, r.storedChecksum.value));
  }

  /** The part of read() that runs once a whole packet is collected: the
      marker test, the payload characters, the checksum comparison and the
      tag ID characters, in the source's order. */
  method ParsePacket(packet: seq<Byte>) returns (r: Result<TagRecord, ReadError>)
    requires |packet| == FrameLength
    ensures r == Decode(packet)
  {
    if packet[0] != StartCode || packet[FrameLength - 1] != EndCode {
      return Failure(InvalidHeader);
    }

    var payload: string := [];
    for i := 1 to PayloadLength + 1
      invariant payload == PayloadText(packet)[..i - 1]
    {
      payload := payload + [CharOf(packet[i])];
    }
    assert payload == PayloadText(packet);

    var nibbles := DecodeHex(payload);
    if nibbles.None? {
      return Failure(InvalidHexDigit);
    }
    var n := nibbles.value;
    var calculated := CalculateChecksum(n[..DataLength]);
    var received := PairByte(n[DataLength], n[DataLength + 1]);
    if calculated != received {
      return Failure(ChecksumMismatch);
    }

    var tagId: string := [];
    for i := 0 to DataLength
      invariant tagId == payload[..i]
    {
      tagId := tagId + [payload[i]];
    }
    return Success(TagRecord(tagId, received));
  }

  /** Two reads of the same frame in a row yield the same outcome and store the
      same tag ID and checksum: decoding depends on the frame bytes alone. */
  method ReadSameFrameTwice(frame: seq<Byte>)
    returns (first: ReadStatus, second: ReadStatus,
             firstId: Option<string>, secondId: Option<string>,
             firstSum: Option<Byte>, secondSum: Option<Byte>)
    requires |frame| == FrameLength
    ensures first == second && firstId == secondId && firstSum == secondSum
    ensures first == Accepted <==> Decode(frame).Success?
  {
    var reader := new RFID(frame + frame);
    ReadOutcomeOfFrame(frame, frame);
    first := reader.Read();
    firstId, firstSum := reader.TagId(), reader.Checksum();
    assert reader.incoming == frame;
    assert frame == frame + [];
    ReadOutcomeOfFrame(frame, []);
    second := reader.Read();
    secondId, secondSum := reader.TagId(), reader.Checksum();
  }
}
