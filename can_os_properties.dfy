/**
 Properties of `CanOsSpec.Convert`, the reference for `can_os_cnvt`: the
 length and hex gates, the identifier and length checks, what the checksum
 comparison amounts to, and the round trip from frame bytes written as hex
 text back into the staging buffer.
 */
module CanOsProperties {
  import opened HexTable
  import opened CanOsSpec

  /** The two length checks come first and leave everything untouched. */
  lemma LengthGate(p: seq<u8>, cba0: seq<u8>)
    requires |cba0| == StagedSize
    ensures Convert(p, cba0).code == TooLong <==> |p| > MaxLen
    ensures Convert(p, cba0).code == TooShort <==> |p| < MinLen
    ensures |p| > MaxLen || |p| < MinLen ==> Convert(p, cba0) == Rejected(Convert(p, cba0).code, cba0)
  {
  }

  /**
   A line of acceptable length is refused as illegal hex exactly when one
   of the characters the loop reads has no table entry.
   */
  lemma IllegalHexIff(p: seq<u8>, cba0: seq<u8>)
    requires |cba0| == StagedSize && MinLen <= |p| <= MaxLen
    ensures Convert(p, cba0).code == IllegalHex
        <==> exists i :: 0 <= i < 2 * PairCount(|p|) && Hxbn(p[i]) == E
  {
    var n := PairCount(|p|);
    var m := GoodPairs(p, n);
    if m < n {
      assert !PairOk(p, m);
      if Hxbn(p[2 * m]) == E {
        assert 0 <= 2 * m < 2 * n && Hxbn(p[2 * m]) == E;
      } else {
        assert 0 <= 2 * m + 1 < 2 * n && Hxbn(p[2 * m + 1]) == E;
      }
    } else {
      forall i | 0 <= i < 2 * n
        ensures Hxbn(p[i]) != E
      {
        var k := i / 2;
        assert PairOk(p, k);
        assert i == 2 * k || i == 2 * k + 1;
      }
    }
  }

  /**
   On an illegal-hex refusal the pairs before the first bad one have been
   stored, the rest of the buffer is as before, and no field is written.
   */
  lemma IllegalHexStopsAtFirstBadPair(p: seq<u8>, cba0: seq<u8>)
    requires |cba0| == StagedSize && MinLen <= |p| <= MaxLen
    requires Convert(p, cba0).code == IllegalHex
    ensures exists j ::
      && 0 <= j < PairCount(|p|)
      && !PairOk(p, j)
      && (forall k :: 0 <= k < j ==> PairOk(p, k) && Convert(p, cba0).cba[k] == PairByte(p, k))
      && (forall k :: j <= k < StagedSize ==> Convert(p, cba0).cba[k] == cba0[k])
    ensures Convert(p, cba0) == Rejected(IllegalHex, Convert(p, cba0).cba)
  {
    var j := GoodPairs(p, PairCount(|p|));
    StagedContents(p, j, cba0);
  }

  /**
   Repeating a call with the same line on the structures the first call
   left behind has the same effects: the decoded prefix is rewritten with
   the same bytes and the tail, including any stale checksum byte, is the
   one the first call saw.
   */
  lemma Idempotent(p: seq<u8>, cba0: seq<u8>)
    requires |cba0| == StagedSize
    ensures Convert(p, Convert(p, cba0).cba) == Convert(p, cba0)
  {
    if MinLen <= |p| <= MaxLen {
      var n := PairCount(|p|);
      var m := GoodPairs(p, n);
      var c1 := Staged(p, m, cba0);
      StagedContents(p, m, cba0);
      StagedContents(p, m, c1);
      assert Staged(p, m, c1) == c1;
    }
  }

  /**
   The identifier the routine builds is 0 or 1, so the illegal-identifier
   check can never refuse a line.
   */
  lemma IllegalIdUnreachable(p: seq<u8>, cba0: seq<u8>)
    requires |cba0| == StagedSize
    ensures Convert(p, cba0).code != IllegalId
    ensures Convert(p, cba0).id.Some? ==> Convert(p, cba0).id.value <= 1
  {
  }

  /** A line of acceptable length whose every pair the loop reads decodes. */
  predicate Decoded(p: seq<u8>)
  {
    MinLen <= |p| <= MaxLen && forall k :: 0 <= k < PairCount(|p|) ==> PairOk(p, k)
  }

  /**
   On a decoded line every pair is stored and the rest of the routine works
   on the staged buffer and the accumulator of the last pass.
   */
  lemma ConvertDecoded(p: seq<u8>, cba0: seq<u8>)
    requires |cba0| == StagedSize && Decoded(p)
    ensures var n := PairCount(|p|);
      && GoodPairs(p, n) == n
      && Convert(p, cba0) == CheckDecoded(Staged(p, n, cba0), Accumulator(p, n))
  {
  }

  /**
   On a decoded line the sequence number is the first staged byte and the
   identifier is 1 when any of the four identifier bytes is nonzero, 0
   otherwise.
   */
  lemma FieldsExtracted(p: seq<u8>, cba0: seq<u8>)
    requires |cba0| == StagedSize && Decoded(p)
    ensures var e := Convert(p, cba0);
      && e.seqNo == Some(e.cba[0])
      && e.id == Some(if e.cba[1] != 0 || e.cba[2] != 0 || e.cba[3] != 0 || e.cba[4] != 0 then 1 else 0)
  {
    ConvertDecoded(p, cba0);
  }

  /**
   The routine accepts a line exactly when every check passes: the length
   is accepted, every pair read decodes, the DLC nibble is at most 8 and the
   byte at `6 + dlc` equals the folded checksum.
   */
  lemma AcceptedIff(p: seq<u8>, cba0: seq<u8>)
    requires |cba0| == StagedSize
    ensures Convert(p, cba0).code == Ok <==>
      && Decoded(p)
      && var n := PairCount(|p|);
         var cba := Staged(p, n, cba0);
         && cba[5] % 16 <= MaxDlc
         && cba[6 + (cba[5] % 16) as int] == ChecksumByte(Accumulator(p, n))
  {
    if Decoded(p) {
      var n := PairCount(|p|);
      ConvertDecoded(p, cba0);
      CheckedDlc(Staged(p, n, cba0), Accumulator(p, n));
    } else if MinLen <= |p| <= MaxLen {
      var n := PairCount(|p|);
      assert GoodPairs(p, n) < n;
    }
  }

  /**
   After the identifier check, which never refuses, the DLC check refuses
   exactly a nibble above 8; past it the frame length is written and the
   checksum index `6 + dlc` is at most 14.
   */
  lemma CheckedDlc(cba: seq<u8>, x: u32)
    requires |cba| == StagedSize
    ensures var e := CheckDecoded(cba, x);
      && e.code != IllegalId
      && e.dlc == Some(cba[5] % 16)
      && (e.code == IllegalDlc <==> cba[5] % 16 > MaxDlc)
      && (e.code != IllegalDlc ==> e.frameDlc == e.dlc && 6 + e.dlc.value as int <= 14)
  {
  }

  /**
   With a legal DLC the outcome is decided by one comparison: the stored
   byte at `6 + dlc` against the low byte of the folded accumulator.
   */
  lemma CheckedOutcome(cba: seq<u8>, x: u32)
    requires |cba| == StagedSize && cba[5] % 16 <= MaxDlc
    ensures CheckDecoded(cba, x).code
      == if cba[6 + (cba[5] % 16) as int] == ChecksumByte(x) then Ok else ChecksumError
  {
    CheckedDlc(cba, x);
  }

  /**
   The byte the routine expects as checksum when the last decoded byte is
   `b`: the low byte of the folded accumulator that pass leaves.
   */
  function ExpectedChecksum(b: u8): u8
  {
    ChecksumByte((b / 16) as u32 + b as u32)
  }

  /**
   The expected checksum worked out: the last byte's high nibble plus the
   byte, less 254 when that sum reaches 256. It equals the last byte itself
   exactly when that byte is below 16.
   */
  lemma ExpectedChecksumValue(b: u8)
    ensures var x := b as int / 16 + b as int;
      ExpectedChecksum(b) as int == if x < 256 then x else x - 254
    ensures ExpectedChecksum(b) == b <==> b < 16
  {
  }

  /** `CheckedOutcome` for the accumulator a pass over byte `b` leaves. */
  lemma CheckedLastByte(cba: seq<u8>, x: u32, b: u8)
    requires |cba| == StagedSize && cba[5] % 16 <= MaxDlc
    requires x as int == b as int / 16 + b as int
    ensures CheckDecoded(cba, x).code
      == if cba[6 + (cba[5] % 16) as int] == ExpectedChecksum(b) then Ok else ChecksumError
  {
    CheckedOutcome(cba, x);
  }

  /**
   On a decoded line the length check refuses exactly a DLC nibble above 8,
   and the socket frame's length is written whenever the check is passed.
   The stored checksum is then read from index `6 + dlc`, at most 14.
   */
  lemma DlcGate(p: seq<u8>, cba0: seq<u8>)
    requires |cba0| == StagedSize && Decoded(p)
    ensures var e := Convert(p, cba0);
      && e.dlc == Some(e.cba[5] % 16)
      && (e.code == IllegalDlc <==> e.cba[5] % 16 > MaxDlc)
      && (e.code != IllegalDlc ==> e.frameDlc == e.dlc && 6 + e.dlc.value as int <= 14)
  {
    var n := PairCount(|p|);
    ConvertDecoded(p, cba0);
    CheckedDlc(Staged(p, n, cba0), Accumulator(p, n));
  }

  /**
   The checksum comparison on a decoded line with a legal DLC: the byte at
   `6 + dlc` must equal the expected checksum of the last decoded byte. No
   other byte of the line takes part.
   */
  lemma ChecksumTest(p: seq<u8>, cba0: seq<u8>)
    requires |cba0| == StagedSize && Decoded(p)
    requires Convert(p, cba0).cba[5] % 16 <= MaxDlc
    ensures var e := Convert(p, cba0);
      var stored := e.cba[6 + (e.cba[5] % 16) as int];
      e.code == if stored == ExpectedChecksum(e.cba[PairCount(|p|) - 1]) then Ok else ChecksumError
  {
    var n := PairCount(|p|);
    ConvertDecoded(p, cba0);
    assert Staged(p, n, cba0)[n - 1] == PairByte(p, n - 1);
    AccumulatorIsLastPair(p, n);
    CheckedLastByte(Staged(p, n, cba0), Accumulator(p, n), PairByte(p, n - 1));
  }

  /**
   When the line is shorter than the frame it announces, the byte the
   checksum is compared with was never decoded by this call: the outcome
   depends on what the staging buffer held before.
   */
  lemma StaleChecksumByte(p: seq<u8>, cba0: seq<u8>)
    requires |cba0| == StagedSize && Decoded(p)
    requires var cba := Convert(p, cba0).cba;
      cba[5] % 16 <= MaxDlc && PairCount(|p|) <= 6 + (cba[5] % 16) as int
    ensures var e := Convert(p, cba0);
      var i := 6 + (e.cba[5] % 16) as int;
      && e.cba[i] == cba0[i]
      && e.code == if cba0[i] == ChecksumByte(Accumulator(p, PairCount(|p|))) then Ok else ChecksumError
  {
    var n := PairCount(|p|);
    ConvertDecoded(p, cba0);
    var cba := Staged(p, n, cba0);
    StagedContents(p, n, cba0);
    assert cba[6 + (cba[5] % 16) as int] == cba0[6 + (cba[5] % 16) as int];
    CheckedOutcome(cba, Accumulator(p, n));
  }

  /**
   Seven bytes written as hex text with one unread trailing character
   announce DLC 8, so the checksum is read from index 14 of the buffer,
   which this call does not write: the outcome compares the buffer's prior
   byte 14 with the expected checksum of the seventh byte.
   */
  lemma ShortFrameChecksumStale(bs: seq<u8>, tail: seq<u8>, cba0: seq<u8>)
    requires |cba0| == StagedSize && |bs| == 7 && |tail| == 1 && bs[5] % 16 == 8
    ensures Convert(EncodeHex(bs) + tail, cba0).code
      == if cba0[14] == ExpectedChecksum(bs[6]) then Ok else ChecksumError
  {
    var p := EncodeHex(bs) + tail;
    EncodedLineDecodes(bs, tail);
    ConvertDecoded(p, cba0);
    StagedContents(p, 7, cba0);
    AccumulatorIsLastPair(p, 7);
    CheckedLastByte(Staged(p, 7, cba0), Accumulator(p, 7), bs[6]);
  }

  /**
   A witness: the 15-character line "000000000008000" (the bytes 00 00 00
   00 00 08 00 and one unread trailing '0') is accepted or refused according
   to byte 14 of the buffer before the call, which the line never reaches.
   */
  lemma StaleChecksumWitness(cba0: seq<u8>)
    requires |cba0| == StagedSize
    ensures Convert(EncodeHex([0, 0, 0, 0, 0, 8, 0]) + [0x30], cba0).code
      == if cba0[14] == 0 then Ok else ChecksumError
  {
    ShortFrameChecksumStale([0, 0, 0, 0, 0, 8, 0], [0x30], cba0);
    ExpectedChecksumValue(0);
  }

  /**
   On success the socket identifier is 0 (the identifier is 0 or 1, and the
   socket identifier only looks at bits 21 and up), the frame length is the
   DLC and the payload is copied.
   */
  lemma SuccessWrites(p: seq<u8>, cba0: seq<u8>)
    requires |cba0| == StagedSize
    requires Convert(p, cba0).code == Ok
    ensures var e := Convert(p, cba0);
      && e.frameId == Some(0)
      && e.frameDlc == e.dlc && e.dlc.Some? && e.dlc.value <= MaxDlc
      && e.seqNo == Some(e.cba[0])
      && e.payloadCopied
  {
  }

  /** Bytes written as text, two upper-case hex digits per byte, high nibble first. */
  function EncodeHex(bs: seq<u8>): (p: seq<u8>)
    ensures |p| == 2 * |bs|
  {
    if bs == [] then []
    else [UpperDigit(bs[0] / 16), UpperDigit(bs[0] % 16)] + EncodeHex(bs[1..])
  }

  /** Pair `k` of the encoding spells byte `k`. */
  lemma {:induction false} EncodeHexPair(bs: seq<u8>, k: nat)
    requires k < |bs|
    ensures EncodeHex(bs)[2 * k] == UpperDigit(bs[k] / 16)
    ensures EncodeHex(bs)[2 * k + 1] == UpperDigit(bs[k] % 16)
  {
    if k > 0 {
      EncodeHexPair(bs[1..], k - 1);
      assert EncodeHex(bs) == [UpperDigit(bs[0] / 16), UpperDigit(bs[0] % 16)] + EncodeHex(bs[1..]);
    }
  }

  /** The pair decoded from the encoding of byte `k` is that byte. */
  lemma DecodeEncodedPair(bs: seq<u8>, tail: seq<u8>, k: nat)
    requires k < |bs|
    ensures var p := EncodeHex(bs) + tail;
      2 * k + 1 < |p| && PairOk(p, k) && PairByte(p, k) == bs[k]
  {
    var p := EncodeHex(bs) + tail;
    EncodeHexPair(bs, k);
    assert p[2 * k] == UpperDigit(bs[k] / 16) && p[2 * k + 1] == UpperDigit(bs[k] % 16);
    NibbleRoundTrip(bs[k] / 16);
    NibbleRoundTrip(bs[k] % 16);
  }

  /**
   Bytes written as hex text, with at most one trailing character the loop
   does not read, form a decoded line whose pairs are those bytes, provided
   the line's length is accepted.
   */
  lemma EncodedLineDecodes(bs: seq<u8>, tail: seq<u8>)
    requires |tail| <= 1 && MinLen <= 2 * |bs| + |tail| <= MaxLen
    ensures var p := EncodeHex(bs) + tail;
      && Decoded(p) && PairCount(|p|) == |bs|
      && forall k :: 0 <= k < |bs| ==> PairByte(p, k) == bs[k]
  {
    var p := EncodeHex(bs) + tail;
    forall k | 0 <= k < |bs|
      ensures PairOk(p, k) && PairByte(p, k) == bs[k]
    {
      DecodeEncodedPair(bs, tail, k);
    }
  }

  /**
   Round trip: such a line passes the length and hex checks and leaves the
   bytes at the front of the staging buffer in order; the rest of the
   buffer keeps its prior contents.
   */
  lemma DecodeEncoded(bs: seq<u8>, tail: seq<u8>, cba0: seq<u8>)
    requires |cba0| == StagedSize && |tail| <= 1 && MinLen <= 2 * |bs| + |tail| <= MaxLen
    ensures var e := Convert(EncodeHex(bs) + tail, cba0);
      && e.code != TooLong && e.code != TooShort && e.code != IllegalHex
      && (forall k :: 0 <= k < |bs| ==> e.cba[k] == bs[k])
      && (forall k :: |bs| <= k < StagedSize ==> e.cba[k] == cba0[k])
  {
    var p := EncodeHex(bs) + tail;
    EncodedLineDecodes(bs, tail);
    ConvertDecoded(p, cba0);
    StagedContents(p, |bs|, cba0);
  }

  /**
   A frame written out in full (sequence byte, four identifier bytes, the
   DLC byte, `dlc` payload bytes and the checksum byte last) is accepted
   exactly when that checksum byte is below 16, whatever the payload, and is
   refused with a checksum error otherwise.
   */
  lemma WellFormedFrameAcceptedIffChecksumBelow16(bs: seq<u8>, tail: seq<u8>, cba0: seq<u8>)
    requires |cba0| == StagedSize && |tail| <= 1 && MinLen <= 2 * |bs| + |tail|
    // `6 <= |bs|` only makes `bs[5]` readable; the length equation implies it.
    requires 6 <= |bs| && bs[5] % 16 <= MaxDlc && |bs| == 7 + (bs[5] % 16) as int
    ensures Convert(EncodeHex(bs) + tail, cba0).code
      == if bs[|bs| - 1] < 16 then Ok else ChecksumError
  {
    var p := EncodeHex(bs) + tail;
    var n := |bs|;
    EncodedLineDecodes(bs, tail);
    ConvertDecoded(p, cba0);
    StagedContents(p, n, cba0);
    AccumulatorIsLastPair(p, n);
    CheckedLastByte(Staged(p, n, cba0), Accumulator(p, n), bs[n - 1]);
    ExpectedChecksumValue(bs[n - 1]);
  }
}
