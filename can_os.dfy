/**
 The routine `can_os_cnvt` of can-os.c as the imperative code it is: it
 reads one ASCII-hex line, decodes it pair by pair into the staging buffer
 of a `CanAll` in place, fills in the fields of the `CanAll` and of a
 socket `CanFrame` with early returns in between, and returns 0 or one of
 the error codes -1 .. -6. Its contract ties every return code and every
 field it writes to the reference `CanOsSpec.Convert`.
 */
module CanOs {
  import opened HexTable
  import opened CanOsSpec

  /** The caller's combined structure (`struct CANALL`). */
  class CanAll {
    /** Staging buffer the hex pairs are decoded into. */
    var cba: array<u8>
    /** Sequence number. */
    var seqNo: u8
    /** CAN identifier (`can.id`). */
    var id: u32
    /** Data length code (`can.dlc`). */
    var dlc: u8
    /** Payload (`can.cd`), copied into the socket frame on success. */
    var cd: array<u8>

    ghost predicate Valid()
      reads this
    {
      cba.Length == StagedSize && cd.Length == PayloadSize
    }

    constructor ()
      ensures Valid() && fresh(cba) && fresh(cd)
    {
      cba := new u8[StagedSize];
      cd := new u8[PayloadSize];
    }
  }

  /** The caller's socket frame (`struct can_frame`). */
  class CanFrame {
    var canId: u32
    var canDlc: u8
    var data: array<u8>

    ghost predicate Valid()
      reads this
    {
      data.Length == PayloadSize
    }

    constructor ()
      ensures Valid() && fresh(data)
    {
      data := new u8[PayloadSize];
    }
  }

  /**
   One pass of the decode loop over pair `j` (characters `2j` and `2j+1`):
   `ok` is false when either character has no hex value, and then nothing
   is stored; otherwise the pair's byte goes to `cba[j]` and the
   accumulator is overwritten with the high nibble plus that byte.
   */
  method DecodePass(cba: array<u8>, p: seq<u8>, j: nat) returns (ok: bool, x: u32)
    requires j < cba.Length && 2 * j + 1 < |p|
    requires forall k :: 0 <= k < j ==> PairOk(p, k)
    modifies cba
    ensures ok == PairOk(p, j)
    ensures cba[..] == if ok then old(cba[..])[j := PairByte(p, j)] else old(cba[..])
    ensures ok ==> x == Accumulator(p, j + 1)
  {
    var y: u8;
    x := Hxbn(p[2 * j]) as u32;
    if x == E as u32 {
      return false, x;
    }
    y := Hxbn(p[2 * j + 1]);
    if y == E {
      return false, x;
    }
    cba[j] := ((x as int * 16 + y as int) % 0x100) as u8;  // combine nibbles: (x << 4) | y
    x := Add32(x, cba[j] as u32);                          // build checksum
    return true, x;
  }

  /**
   The decode loop of `can_os_cnvt`: hex pairs are decoded into `cba` from
   index 0 on, while the input index is below `|p| - 1`, and the first pair
   with a non-hex character ends it. `ok` is false when it ended that way;
   otherwise `x` is the checksum accumulator the loop leaves behind.
   */
  method DecodePairs(cba: array<u8>, p: seq<u8>) returns (ok: bool, x: u32)
    requires cba.Length == StagedSize && MinLen <= |p| <= MaxLen
    modifies cba
    ensures var n := PairCount(|p|);
      && ok == (GoodPairs(p, n) == n)
      && cba[..] == Staged(p, GoodPairs(p, n), old(cba[..]))
      && (ok ==> x == Accumulator(p, n))
  {
    x := ChecksumInitial;
    ghost var cba0 := cba[..];
    ghost var n := PairCount(|p|);
    var i, j := 0, 0;
    var pend := |p| - 1;
    while i < pend
      invariant i == 2 * j && i <= |p| && j <= n
      invariant forall k :: 0 <= k < j ==> PairOk(p, k)
      invariant cba[..] == Staged(p, j, cba0)
      invariant j >= 1 ==> x == Accumulator(p, j)
    {
      ok, x := DecodePass(cba, p, j);
      if !ok {
        GoodPairsStopsAt(p, n, j);
        return;
      }
      i, j := i + 2, j + 1;
    }
    assert j == n;
    ok := true;
  }

  /**
   The part of `can_os_cnvt` after a successful decode: it fills in the
   fields of `all` from the staging buffer, checks the identifier, the data
   length code and the checksum (given the accumulator `x` the decode loop
   left), and fills in the socket frame.
   */
  method Repack(frame: CanFrame, all: CanAll, x: u32) returns (rc: int)
    requires frame.Valid() && all.Valid()
    modifies frame, frame.data, all
    ensures frame.Valid() && all.Valid()
    ensures frame.data == old(frame.data) && all.cba == old(all.cba) && all.cd == old(all.cd)
    ensures var e := CheckDecoded(old(all.cba[..]), x);
      && rc == e.code.Rc()
      && all.seqNo == e.seqNo.GetOr(old(all.seqNo))
      && all.id == e.id.GetOr(old(all.id))
      && all.dlc == e.dlc.GetOr(old(all.dlc))
      && frame.canDlc == e.frameDlc.GetOr(old(frame.canDlc))
      && frame.canId == e.frameId.GetOr(old(frame.canId))
      && frame.data[..] == if e.payloadCopied then old(all.cd[..]) else old(frame.data[..])
  {
    // Reposition binary bytes into our format.
    all.seqNo := all.cba[0];
    all.id := LogicalOrId(all.cba[1], all.cba[2], all.cba[3], all.cba[4]);
    if IdRejected(all.id) {
      return -4;
    }

    all.dlc := DlcNibble(all.cba[5]);
    if all.dlc > MaxDlc {
      return -5;
    }
    frame.canDlc := all.dlc;

    if all.cba[6 + all.dlc as int] != ChecksumByte(x) {
      return -6;
    }

    frame.canId := SocketId(all.id);

    // Payload, all eight bytes in one copy.
    forall k | 0 <= k < PayloadSize {
      frame.data[k] := all.cd[k];
    }
    return 0;
  }

  /**
   `can_os_cnvt(pframe, pall, p)`, where `p` holds the characters of the
   line up to (not including) its NUL.
   */
  method CanOsCnvt(frame: CanFrame, all: CanAll, p: seq<u8>) returns (rc: int)
    requires frame.Valid() && all.Valid()
    modifies frame, frame.data, all, all.cba
    ensures frame.Valid() && all.Valid()
    ensures frame.data == old(frame.data) && all.cba == old(all.cba) && all.cd == old(all.cd)
    ensures var e := Convert(p, old(all.cba[..]));
      && rc == e.code.Rc()
      && all.cba[..] == e.cba
      && all.seqNo == e.seqNo.GetOr(old(all.seqNo))
      && all.id == e.id.GetOr(old(all.id))
      && all.dlc == e.dlc.GetOr(old(all.dlc))
      && frame.canDlc == e.frameDlc.GetOr(old(frame.canDlc))
      && frame.canId == e.frameId.GetOr(old(frame.canId))
      && frame.data[..] == if e.payloadCopied then old(all.cd[..]) else old(frame.data[..])
  {
    var len := |p|;
    if len > MaxLen { return -1; }
    if len < MinLen { return -2; }

    // Convert incoming ascii to binary.
    var ok, x := DecodePairs(all.cba, p);
    if !ok {
      return -3;
    }
    rc := Repack(frame, all, x);
  }
}
