/** The 14-byte frame the 125 kHz reader sends for one tag, and its decoding
    into a checked tag record (PyRfid.py, RFID.read and the reference block). */
module Frame {
  import opened Wrappers
  import opened Hex
  import opened Checksums

  /** RFID_STARTCODE: the first byte of every frame. */
  const StartCode: Byte := 0x02

  /** RFID_ENDCODE: the last byte of every frame. */
  const EndCode: Byte := 0x03

  /** Bytes per frame: start marker, twelve hex characters, end marker. */
  const FrameLength := 14

  /** Hex characters between the markers: ten data characters, then the two
      characters of the received checksum. */
  const PayloadLength := 12

  /** Characters that make up the stored tag ID. */
  const DataLength := DataNibbles

  /** The ways one read can fail; each stands for an exception the source raises. */
  datatype ReadError =
    | TransportTimeout   // the serial port returned no byte before the frame was complete
    | InvalidHeader      // 'Invalid packet header!'
    | InvalidHexDigit    // int(c, 16) raised ValueError on a payload character
    | ChecksumMismatch   // 'Checksum of packet is wrong!'

  /** What a successful read stores: the data characters and the received checksum. */
  datatype TagRecord = TagRecord(tagId: string, checksum: Byte)

  predicate MarkersValid(frame: seq<Byte>)
    requires |frame| == FrameLength
  {
    frame[0] == StartCode && frame[FrameLength - 1] == EndCode
  }

  /** The characters at wire positions 1 to 12. */
  function PayloadText(frame: seq<Byte>): (s: string)
    requires |frame| == FrameLength
    ensures |s| == PayloadLength
    ensures forall i :: 0 <= i < PayloadLength ==> s[i] == CharOf(frame[i + 1])
  {
    seq(PayloadLength, i requires 0 <= i < PayloadLength => CharOf(frame[i + 1]))
  }

  /** int(c, 16) on every character of s; None when some character is not a hex digit. */
  function DecodeHex(s: string): (r: Option<seq<Nibble>>)
    ensures r.Some? <==> forall i :: 0 <= i < |s| ==> IsHexDigit(s[i])
    ensures r.Some? ==> |r.value| == |s|
    ensures r.Some? ==> forall i :: 0 <= i < |s| ==> HexNibble(s[i]) == Some(r.value[i])
  {
    if s == [] then Some([])
    else
      assert forall j :: 0 <= j < |s| - 1 ==> s[1..][j] == s[j + 1];
      match (HexNibble(s[0]), DecodeHex(s[1..]))
      case (Some(n), Some(rest)) => Some([n] + rest)
      case _ => None
  }

  /** A record that has passed the integrity check: its ten characters are hex
      digits and its checksum is the XOR checksum of their nibbles. */
  ghost predicate Checked(rec: TagRecord) {
    && |rec.tagId| == DataLength
    && DecodeHex(rec.tagId).Some?
    && XorChecksum(DecodeHex(rec.tagId).value) == rec.checksum
  }

  /** Every payload character is a hex digit. */
  predicate PayloadIsHex(frame: seq<Byte>)
    requires |frame| == FrameLength
  {
    forall i :: 1 <= i <= PayloadLength ==> IsHexDigit(CharOf(frame[i]))
  }

  lemma PayloadIsHexDecodes(frame: seq<Byte>)
    requires |frame| == FrameLength
    ensures PayloadIsHex(frame) <==> DecodeHex(PayloadText(frame)).Some?
  {
    var text := PayloadText(frame);
    assert forall i :: 1 <= i <= PayloadLength ==> CharOf(frame[i]) == text[i - 1];
  }

  /** Decoding a prefix gives the prefix of the decoding. */
  lemma DecodeHexPrefix(s: string, k: nat)
    requires DecodeHex(s).Some? && k <= |s|
    ensures DecodeHex(s[..k]) == Some(DecodeHex(s).value[..k])
  {
    var n := DecodeHex(s).value;
    var p := DecodeHex(s[..k]).value;
    assert forall i :: 0 <= i < k ==> HexNibble(s[..k][i]) == Some(p[i]) && HexNibble(s[i]) == Some(n[i]);
    assert p == n[..k];
  }

  /** Validation in the source's order: both markers, then the hex payload,
      then the checksum. Only a frame that passes all three yields a record,
      and that record is always a checked one. */
  function Decode(frame: seq<Byte>): (r: Result<TagRecord, ReadError>)
    requires |frame| == FrameLength
    ensures r != Failure(TransportTimeout)
    ensures r == Failure(InvalidHeader) <==> !MarkersValid(frame)
    ensures r == Failure(InvalidHexDigit) <==> MarkersValid(frame) && !PayloadIsHex(frame)
    ensures r.Success? ==> Checked(r.value)
    ensures r.Success? ==> r.value.tagId == PayloadText(frame)[..DataLength]
  {
    if !MarkersValid(frame) then Failure(InvalidHeader)
    else
      var text := PayloadText(frame);
      PayloadIsHexDecodes(frame);
      match DecodeHex(text)
      case None => Failure(InvalidHexDigit)
      case Some(n) =>
        var received := PairByte(n[DataLength], n[DataLength + 1]);
        if XorChecksum(n[..DataLength]) != received then Failure(ChecksumMismatch)
        else
          DecodeHexPrefix(text, DataLength);
          Success(TagRecord(text[..DataLength], received))
  }

  /** The nibbles of the payload of a frame whose payload is all hex digits. */
  function PayloadNibbles(frame: seq<Byte>): (n: seq<Nibble>)
    requires |frame| == FrameLength && DecodeHex(PayloadText(frame)).Some?
    ensures |n| == PayloadLength
    ensures forall i :: 0 <= i < PayloadLength ==> HexNibble(CharOf(frame[i + 1])) == Some(n[i])
  {
    DecodeHex(PayloadText(frame)).value
  }

  /** The payload of a frame decodes to n when each of its characters is the
      hex digit of the corresponding nibble. */
  lemma PayloadNibblesAre(frame: seq<Byte>, n: seq<Nibble>)
    requires |frame| == FrameLength && |n| == PayloadLength
    requires forall i :: 1 <= i <= PayloadLength ==> HexNibble(CharOf(frame[i])) == Some(n[i - 1])
    ensures DecodeHex(PayloadText(frame)) == Some(n)
  {
    var text := PayloadText(frame);
    assert forall i :: 0 <= i < PayloadLength ==> HexNibble(text[i]) == Some(n[i]);
    assert forall i :: 0 <= i < PayloadLength ==> IsHexDigit(text[i]);
    var m := DecodeHex(text).value;
    assert forall i :: 0 <= i < PayloadLength ==> m[i] == n[i];
    assert m == n;
  }

  /** A frame with valid markers and a hex payload is accepted exactly when
      the XOR checksum of its ten data nibbles equals the byte formed from its
      two checksum nibbles; otherwise it is rejected with ChecksumMismatch. */
  lemma DecodeChecksumRule(frame: seq<Byte>)
    requires |frame| == FrameLength && MarkersValid(frame)
    requires DecodeHex(PayloadText(frame)).Some?
    ensures Decode(frame).Success? <==> ChecksumHolds(PayloadNibbles(frame))
    ensures Decode(frame).Failure? ==> Decode(frame) == Failure(ChecksumMismatch)
    ensures Decode(frame).Success? ==>
      Decode(frame).value.checksum == PairByte(PayloadNibbles(frame)[10], PayloadNibbles(frame)[11])
  {
  }

  /** The characters the reader sends for a sequence of nibbles. */
  function HexText(n: seq<Nibble>): (s: string)
    ensures |s| == |n|
    ensures forall i :: 0 <= i < |n| ==> s[i] == HexDigit(n[i])
  {
    seq(|n|, i requires 0 <= i < |n| => HexDigit(n[i]))
  }

  /** The frame a reader sends for ten data nibbles: the markers around the
      data characters and the two characters of their computed checksum. */
  function BuildFrame(data: seq<Nibble>): (f: seq<Byte>)
    requires |data| == DataLength
    ensures |f| == FrameLength
  {
    var sum := XorChecksum(data);
    var payload := HexText(data + [sum / 16, sum % 16]);
    [StartCode] + seq(PayloadLength, i requires 0 <= i < PayloadLength => payload[i] as int) + [EndCode]
  }

  lemma BuildFramePayload(data: seq<Nibble>)
    requires |data| == DataLength
    ensures MarkersValid(BuildFrame(data))
    ensures var sum := XorChecksum(data);
      DecodeHex(PayloadText(BuildFrame(data))) == Some(data + [sum / 16, sum % 16])
    ensures PayloadText(BuildFrame(data)) == HexText(data + [XorChecksum(data) / 16, XorChecksum(data) % 16])
  {
    var sum := XorChecksum(data);
    var full := data + [sum / 16, sum % 16];
    var text := PayloadText(BuildFrame(data));
    assert text == HexText(full);
    forall i | 0 <= i < PayloadLength ensures HexNibble(text[i]) == Some(full[i]) {
      HexDigitRoundTrip(full[i]);
    }
    var n := DecodeHex(text).value;
    assert n == full;
  }

  /** A frame built with its computed checksum is accepted, and the record is
      the data characters with that checksum. */
  lemma BuildFrameAccepted(data: seq<Nibble>)
    requires |data| == DataLength
    ensures Decode(BuildFrame(data)) == Success(TagRecord(HexText(data), XorChecksum(data)))
  {
    var sum := XorChecksum(data);
    var f := BuildFrame(data);
    BuildFrameChecksum(data);
    DecodeChecksumRule(f);
    BuildFramePayload(data);
    HexTextPrefix(data, [sum / 16, sum % 16]);
  }

  /** The characters of a concatenation begin with those of its first part. */
  lemma HexTextPrefix(a: seq<Nibble>, b: seq<Nibble>)
    ensures HexText(a + b)[..|a|] == HexText(a)
  {
    assert forall i :: 0 <= i < |a| ==> (a + b)[i] == a[i];
  }

  /** The payload nibbles of a built frame satisfy the integrity rule, and its
      checksum characters spell the computed checksum. */
  lemma BuildFrameChecksum(data: seq<Nibble>)
    requires |data| == DataLength
    ensures MarkersValid(BuildFrame(data)) && DecodeHex(PayloadText(BuildFrame(data))).Some?
    ensures ChecksumHolds(PayloadNibbles(BuildFrame(data)))
    ensures PairByte(PayloadNibbles(BuildFrame(data))[DataLength], PayloadNibbles(BuildFrame(data))[DataLength + 1])
      == XorChecksum(data)
  {
    var sum := XorChecksum(data);
    BuildFramePayload(data);
    var n := PayloadNibbles(BuildFrame(data));
    assert n == data + [sum / 16, sum % 16];
    assert n[..DataLength] == data;
    assert PairByte(n[DataLength], n[DataLength + 1]) == sum;
  }

  /** The bytes of an accepted frame whose payload uses the reader's
      upper-case alphabet are the markers around the characters of its nibbles. */
  lemma UpperHexFrameBytes(frame: seq<Byte>)
    requires |frame| == FrameLength && MarkersValid(frame) && DecodeHex(PayloadText(frame)).Some?
    requires forall i :: 1 <= i <= PayloadLength ==> IsUpperHexDigit(CharOf(frame[i]))
    ensures forall i :: 1 <= i <= PayloadLength ==> frame[i] == HexDigit(PayloadNibbles(frame)[i - 1]) as int
  {
    var n := PayloadNibbles(frame);
    forall i | 1 <= i <= PayloadLength ensures frame[i] == HexDigit(n[i - 1]) as int {
      assert HexNibble(CharOf(frame[i])) == Some(n[i - 1]);
    }
  }

  /** A checksum byte split back into its two nibbles. */
  lemma ChecksumNibbles(n: seq<Nibble>)
    requires |n| == PayloadLength && ChecksumHolds(n)
    ensures var sum := XorChecksum(n[..DataLength]);
      n[..DataLength] + [sum / 16, sum % 16] == n
  {
  }

  /** Every accepted frame in the reader's upper-case alphabet is the frame
      built from the nibbles of its record: decoding loses nothing. */
  lemma AcceptedFrameIsBuilt(frame: seq<Byte>)
    requires |frame| == FrameLength && Decode(frame).Success?
    requires forall i :: 1 <= i <= PayloadLength ==> IsUpperHexDigit(CharOf(frame[i]))
    ensures BuildFrame(DecodeHex(Decode(frame).value.tagId).value) == frame
  {
    AcceptedRecordNibbles(frame);
    var n := PayloadNibbles(frame);
    var data := DecodeHex(Decode(frame).value.tagId).value;
    var sum := XorChecksum(data);
    var full := data + [sum / 16, sum % 16];
    assert full == n;
    UpperHexFrameBytes(frame);
    BuildFrameBytes(data);
    var f := BuildFrame(data);
    assert forall i :: 1 <= i <= PayloadLength ==> f[i] == HexDigit(full[i - 1]) as int;
    SameFrame(f, frame);
  }

  /** Two frames with the same markers and the same payload bytes are equal. */
  lemma SameFrame(f: seq<Byte>, g: seq<Byte>)
    requires |f| == FrameLength && |g| == FrameLength
    requires f[0] == g[0] && f[FrameLength - 1] == g[FrameLength - 1]
    requires forall i :: 1 <= i <= PayloadLength ==> f[i] == g[i]
    ensures f == g
  {
    assert forall i :: 0 <= i < FrameLength ==> f[i] == g[i];
  }

  /** The payload nibbles of an accepted frame are the nibbles of its stored
      ID followed by the two nibbles of their checksum. */
  lemma AcceptedRecordNibbles(frame: seq<Byte>)
    requires |frame| == FrameLength && Decode(frame).Success?
    ensures MarkersValid(frame) && DecodeHex(PayloadText(frame)).Some?
    ensures DecodeHex(Decode(frame).value.tagId).Some?
    ensures var data := DecodeHex(Decode(frame).value.tagId).value;
      |data| == DataLength &&
      var sum := XorChecksum(data);
      data + [sum / 16, sum % 16] == PayloadNibbles(frame)
  {
    PayloadIsHexDecodes(frame);
    var n := PayloadNibbles(frame);
    DecodeChecksumRule(frame);
    DecodeHexPrefix(PayloadText(frame), DataLength);
    var data := DecodeHex(Decode(frame).value.tagId).value;
    assert data == n[..DataLength];
    ChecksumNibbles(n);
  }

  /** The bytes of a built frame: the markers, then the character of each
      data nibble and of each checksum nibble. */
  lemma BuildFrameBytes(data: seq<Nibble>)
    requires |data| == DataLength
    ensures var f := BuildFrame(data);
      var sum := XorChecksum(data);
      && f[0] == StartCode && f[FrameLength - 1] == EndCode
      && forall i :: 1 <= i <= PayloadLength ==> f[i] == HexDigit((data + [sum / 16, sum % 16])[i - 1]) as int
  {
  }

  /** Replacing one payload character by a hex character changes exactly one
      payload nibble and nothing else about the frame's structure. */
  lemma CorruptedPayload(frame: seq<Byte>, k: nat, c: char)
    requires |frame| == FrameLength && MarkersValid(frame) && PayloadIsHex(frame)
    requires 1 <= k <= PayloadLength && IsHexDigit(c)
    ensures var bad := frame[k := c as int];
      && MarkersValid(bad) && PayloadIsHex(bad)
      && DecodeHex(PayloadText(bad)).Some? && DecodeHex(PayloadText(frame)).Some?
      && PayloadNibbles(bad) == PayloadNibbles(frame)[k - 1 := HexNibble(c).value]
  {
    var bad := frame[k := c as int];
    assert PayloadIsHex(bad);
    PayloadIsHexDecodes(frame);
    PayloadIsHexDecodes(bad);
    var n := PayloadNibbles(frame);
    var m := PayloadNibbles(bad);
    forall i | 0 <= i < PayloadLength ensures m[i] == n[k - 1 := HexNibble(c).value][i] {
      assert HexNibble(CharOf(bad[i + 1])) == Some(m[i]);
    }
  }

  /** Replacing any one payload character of an accepted frame by a hex
      character of a different value gives a frame that is rejected with
      ChecksumMismatch: the checksum guards every data and checksum nibble. */
  lemma CorruptedNibbleRejected(frame: seq<Byte>, k: nat, c: char)
    requires |frame| == FrameLength && Decode(frame).Success?
    requires 1 <= k <= PayloadLength && IsHexDigit(c)
    requires HexNibble(c) != HexNibble(CharOf(frame[k]))
    ensures Decode(frame[k := c as int]) == Failure(ChecksumMismatch)
  {
    var bad := frame[k := c as int];
    CorruptedPayload(frame, k, c);
    var n := PayloadNibbles(frame);
    assert HexNibble(CharOf(frame[k])) == Some(n[k - 1]);
    DecodeChecksumRule(frame);
    OneNibbleBreaksChecksum(n, k - 1, HexNibble(c).value);
    DecodeChecksumRule(bad);
  }

  /** Bytes taken from the serial port by one read: a whole frame, or
      everything there is when the port times out first. */
  function Consumed(stream: seq<Byte>): (k: nat)
    ensures k <= |stream| && k <= FrameLength
    ensures k == FrameLength || k == |stream|
  {
    if |stream| < FrameLength then |stream| else FrameLength
  }

  /** The outcome of one read over the bytes the serial port will deliver:
      a timeout when fewer than a frame's worth arrive, otherwise the decoding
      of the first fourteen bytes. */
  function ReadOutcome(stream: seq<Byte>): (r: Result<TagRecord, ReadError>)
    ensures r == Failure(TransportTimeout) <==> |stream| < FrameLength
    ensures r.Success? ==> Checked(r.value)
  {
    if |stream| < FrameLength then Failure(TransportTimeout) else Decode(stream[..FrameLength])
  }

  /** Framing is purely positional: what follows the first fourteen bytes
      does not influence the outcome of the read. */
  lemma ReadOutcomeOfFrame(frame: seq<Byte>, rest: seq<Byte>)
    requires |frame| == FrameLength
    ensures ReadOutcome(frame + rest) == Decode(frame)
    ensures Consumed(frame + rest) == FrameLength
  {
    assert (frame + rest)[..FrameLength] == frame;
  }

  /** A frame whose first nine data characters are '0' and whose last data
      character and checksum characters are the hex digits of d, h and l is
      accepted exactly when the byte h l equals d, the checksum of that data. */
  lemma ZeroPrefixDecode(f: seq<Byte>, d: Nibble, h: Nibble, l: Nibble)
    requires |f| == FrameLength && f[0] == StartCode && f[13] == EndCode
    requires forall i :: 1 <= i <= 9 ==> f[i] == 0x30
    requires f[10] == HexDigit(d) as int && f[11] == HexDigit(h) as int && f[12] == HexDigit(l) as int
    ensures Decode(f).Success? <==> d == PairByte(h, l)
    ensures Decode(f).Failure? ==> Decode(f) == Failure(ChecksumMismatch)
  {
    var n: seq<Nibble> := [0, 0, 0, 0, 0, 0, 0, 0, 0, d, h, l];
    HexDigitRoundTrip(d);
    HexDigitRoundTrip(h);
    HexDigitRoundTrip(l);
    assert forall i :: 1 <= i <= 9 ==> HexNibble(CharOf(f[i])) == Some(0);
    PayloadNibblesAre(f, n);
    ChecksumOfLastPairOnly(n[..DataLength]);
    assert PairByte(0, d) == d;
    DecodeChecksumRule(f);
  }
}
