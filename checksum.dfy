/** The frame checksum: the XOR of the bytes formed from consecutive nibble
    pairs of the tag data (PyRfid.py, reference block, lines 176-177). */
module Checksums {
  import opened Hex

  /** Number of data nibbles the checksum covers: five byte pairs. */
  const DataNibbles := 10

  /** XOR of PairByte(n[i], n[i + 1]) for i = 0, 2, 4, ..., folded from the
      left in the order the reference loop visits the pairs, starting from 0.
      Only even lengths occur; on an odd length the first nibble is unpaired
      and left out. */
  function XorChecksum(n: seq<Nibble>): (r: Byte)
    decreases |n|
  {
    if |n| < 2 then 0
    else Xor(XorChecksum(n[..|n| - 2]), PairByte(n[|n| - 2], n[|n| - 1]))
  }

  /** The reference loop: Checksumme ^= ((ID[I] << 4) + ID[I + 1]) for
      I in range(0, 9, 2), over the ten data nibbles. */
  method CalculateChecksum(data: seq<Nibble>) returns (sum: Byte)
    requires |data| == DataNibbles
    ensures sum == XorChecksum(data)
  {
    sum := 0;
    var i := 0;
    while i < 9
      invariant i == 0 || i == 2 || i == 4 || i == 6 || i == 8 || i == 10
      invariant sum == XorChecksum(data[..i])
    {
      ChecksumStep(data, i);
      sum := Xor(sum, PairByte(data[i], data[i + 1]));
      i := i + 2;
    }
    assert data[..i] == data;
  }

  /** One more pair extends the fold by one XOR. */
  lemma ChecksumStep(data: seq<Nibble>, i: nat)
    requires i + 2 <= |data|
    ensures XorChecksum(data[..i + 2]) == Xor(XorChecksum(data[..i]), PairByte(data[i], data[i + 1]))
  {
    assert data[..i + 2][..i] == data[..i];
  }

  /** The checksum of the whole sequence, taken as its longest prefix. */
  lemma ChecksumWhole(data: seq<Nibble>)
    ensures XorChecksum(data[..|data|]) == XorChecksum(data)
  {
    assert data[..|data|] == data;
  }

  /** Changing any single nibble of the checksummed data changes the checksum:
      a one-nibble transmission error in the data is always detected. */
  lemma {:induction false} ChecksumDetectsOneNibble(n: seq<Nibble>, k: nat, v: Nibble)
    requires |n| % 2 == 0 && k < |n| && v != n[k]
    ensures XorChecksum(n[k := v]) != XorChecksum(n)
    decreases |n|
  {
    var m := n[k := v];
    assert |n| >= 2 && (|n| - 2) % 2 == 0;
    var last := |n| - 2;
    assert m[..last] == if k < last then n[..last][k := v] else n[..last];
    if k < last {
      ChecksumDetectsOneNibble(n[..last], k, v);
      XorInjective(XorChecksum(m[..last]), XorChecksum(n[..last]), PairByte(n[last], n[last + 1]));
    } else {
      assert PairByte(m[last], m[last + 1]) != PairByte(n[last], n[last + 1]) by {
        if PairByte(m[last], m[last + 1]) == PairByte(n[last], n[last + 1]) {
          PairByteInjective(m[last], m[last + 1], n[last], n[last + 1]);
        }
      }
      XorInjective(PairByte(m[last], m[last + 1]), PairByte(n[last], n[last + 1]), XorChecksum(n[..last]));
    }
  }

  /** The frame integrity rule over its twelve payload nibbles: the checksum
      of the first ten equals the byte of the last two. */
  predicate ChecksumHolds(n: seq<Nibble>)
    requires |n| == DataNibbles + 2
  {
    XorChecksum(n[..DataNibbles]) == PairByte(n[DataNibbles], n[DataNibbles + 1])
  }

  /** A single wrong nibble anywhere among the twelve, data or checksum,
      breaks the integrity rule. */
  lemma OneNibbleBreaksChecksum(n: seq<Nibble>, k: nat, v: Nibble)
    requires |n| == DataNibbles + 2 && k < |n| && v != n[k]
    requires ChecksumHolds(n)
    ensures !ChecksumHolds(n[k := v])
  {
    var m := n[k := v];
    if k < DataNibbles {
      assert m[..DataNibbles] == n[..DataNibbles][k := v];
      ChecksumDetectsOneNibble(n[..DataNibbles], k, v);
    } else {
      assert m[..DataNibbles] == n[..DataNibbles];
    }
  }

  /** Appending one nibble pair XORs its byte onto the checksum. */
  lemma ChecksumAppend(prefix: seq<Nibble>, hi: Nibble, lo: Nibble)
    ensures XorChecksum(prefix + [hi, lo]) == Xor(XorChecksum(prefix), PairByte(hi, lo))
  {
    assert (prefix + [hi, lo])[..|prefix|] == prefix;
  }

  /** Nibbles that are all 0 have checksum 0. */
  lemma {:induction false} ChecksumOfZeros(n: seq<Nibble>)
    requires forall i :: 0 <= i < |n| ==> n[i] == 0
    ensures XorChecksum(n) == 0
    decreases |n|
  {
    if |n| >= 2 {
      var prefix := n[..|n| - 2];
      var last := PairByte(n[|n| - 2], n[|n| - 1]);
      assert XorChecksum(n) == Xor(XorChecksum(prefix), last);
      ChecksumOfZeros(prefix);
      assert last == 0;
      XorZero(0);
    }
  }

  /** When the first eight data nibbles are 0, the checksum is the byte of
      the last pair alone. */
  lemma ChecksumOfLastPairOnly(data: seq<Nibble>)
    requires |data| == DataNibbles
    requires forall i :: 0 <= i < 8 ==> data[i] == 0
    ensures XorChecksum(data) == PairByte(data[8], data[9])
  {
    var zeros := data[..8];
    ChecksumOfZeros(zeros);
    assert data == zeros + [data[8], data[9]];
    ChecksumAppend(zeros, data[8], data[9]);
    XorZero(PairByte(data[8], data[9]));
  }

  /** The checksum of a single pair is that pair's byte. */
  lemma {:induction false} ChecksumOfOnePair(hi: Nibble, lo: Nibble)
    ensures XorChecksum([hi, lo]) == PairByte(hi, lo)
  {
    assert [hi, lo][..0] == [];
    XorZero(PairByte(hi, lo));
  }
}
