/**
 A value-level reference for `can_os_cnvt` of can-os.c, written as the code
 behaves (not as its comments describe it). `Convert` takes the input line
 and the prior contents of the 16-byte staging buffer `cba`, and yields the
 return code together with everything the routine writes: the staging buffer
 afterwards, and for each output field either the value written or `None`
 when the routine returned before writing it.

 Values are integers in the range of their C type (`u8`, `u32`); each shift,
 mask and truncating store of the C code is written out as the arithmetic it
 performs on that range.
 */
module CanOsSpec {
  import opened HexTable

  /** An unsigned 32-bit value (C `uint32_t`). */
  newtype u32 = x: int | 0 <= x < 0x1_0000_0000

  /** CHECKSUM_INITIAL, the seed of the 32-bit checksum accumulator. */
  const ChecksumInitial: u32 := 0xa5a5
  /** Longest accepted input line (strlen result). */
  const MaxLen: nat := 31
  /** Shortest accepted input line (strlen result). */
  const MinLen: nat := 15
  /** Size of the staging buffer `cba`. */
  const StagedSize: nat := 16
  /** Largest accepted data length code. */
  const MaxDlc: u8 := 8
  /** Size of a socket frame's payload array. */
  const PayloadSize: nat := 8

  /** A sum computed in `uint32_t`, which wraps modulo 2^32. */
  function Add32(a: u32, b: u32): (r: u32)
    ensures a as int + b as int < 0x1_0000_0000 ==> r as int == a as int + b as int
    ensures a as int + b as int >= 0x1_0000_0000 ==> r as int == a as int + b as int - 0x1_0000_0000
  {
    ((a as int + b as int) % 0x1_0000_0000) as u32
  }

  datatype Option<T> = None | Some(value: T) {
    function GetOr(default: T): T {
      match this
      case Some(v) => v
      case None => default
    }
  }

  /** The seven outcomes of the routine. */
  datatype Code = Ok | TooLong | TooShort | IllegalHex | IllegalId | IllegalDlc | ChecksumError {
    /** The integer the routine returns for this outcome. */
    function Rc(): (rc: int)
      ensures -6 <= rc <= 0
      ensures rc == 0 <==> Ok?
    {
      match this
      case Ok => 0
      case TooLong => -1
      case TooShort => -2
      case IllegalHex => -3
      case IllegalId => -4
      case IllegalDlc => -5
      case ChecksumError => -6
    }
  }

  /**
   What one call leaves behind: the outcome, the staging buffer afterwards,
   and for each field of the two output structures the value written to it
   (`None`: not written). `payloadCopied` says whether the 8-byte payload
   copy into the socket frame took place.
   */
  datatype Effects = Effects(
    code: Code,
    cba: seq<u8>,
    seqNo: Option<u8>,
    id: Option<u32>,
    dlc: Option<u8>,
    frameDlc: Option<u8>,
    frameId: Option<u32>,
    payloadCopied: bool)

  /** A call that wrote nothing but (perhaps) a prefix of the staging buffer. */
  function Rejected(code: Code, cba: seq<u8>): Effects {
    Effects(code, cba, None, None, None, None, None, false)
  }

  /**
   The number of passes of the decode loop, which starts at index 0, steps
   by two, and stops at the first index not below `len - 1`: the last
   character is left out when `len` is odd and decoded when `len` is even.
   */
  function PairCount(len: nat): (n: nat)
    ensures 2 * n <= len
    ensures len >= 1 ==> len - 1 <= 2 * n
  {
    len / 2
  }

  /** Both characters of pair `k` have a table entry other than E. */
  predicate PairOk(p: seq<u8>, k: nat)
    requires 2 * k + 1 < |p|
  {
    Hxbn(p[2 * k]) != E && Hxbn(p[2 * k + 1]) != E
  }

  /**
   The byte pair `k` decodes to, `(x << 4) | y` for the nibbles `x` of
   `p[2k]` and `y` of `p[2k+1]`: with both below 16 the shift is a
   multiplication by 16 and the or an addition, and the result fits a byte.
   */
  function PairByte(p: seq<u8>, k: nat): u8
    requires 2 * k + 1 < |p| && PairOk(p, k)
  {
    Hxbn(p[2 * k]) * 16 + Hxbn(p[2 * k + 1])
  }

  /** The decoded byte's high nibble is the first character's, its low nibble the second's. */
  lemma PairByteNibbles(p: seq<u8>, k: nat)
    requires 2 * k + 1 < |p| && PairOk(p, k)
    ensures PairByte(p, k) / 16 == Hxbn(p[2 * k]) && PairByte(p, k) % 16 == Hxbn(p[2 * k + 1])
  {
  }

  /**
   How many of the first `n` pairs are decoded before the first pair that
   holds a non-hex character (all `n` when there is none).
   */
  function GoodPairs(p: seq<u8>, n: nat): (m: nat)
    requires 2 * n <= |p|
    ensures m <= n
    ensures forall k :: 0 <= k < m ==> PairOk(p, k)
    ensures m < n ==> !PairOk(p, m)
  {
    if n == 0 then 0
    else
      var m := GoodPairs(p, n - 1);
      if m == n - 1 && PairOk(p, n - 1) then n else m
  }

  /** The first pair that fails to decode decides how many pairs are decoded. */
  lemma GoodPairsStopsAt(p: seq<u8>, n: nat, j: nat)
    requires 2 * n <= |p| && j < n
    requires forall k :: 0 <= k < j ==> PairOk(p, k)
    requires !PairOk(p, j)
    ensures GoodPairs(p, n) == j
  {
  }

  /** The staging buffer after the first `m` pairs have been decoded into it. */
  function Staged(p: seq<u8>, m: nat, cba0: seq<u8>): (cba: seq<u8>)
    requires |cba0| == StagedSize && m <= StagedSize && 2 * m <= |p|
    requires forall k :: 0 <= k < m ==> PairOk(p, k)
    ensures |cba| == StagedSize
  {
    if m == 0 then cba0
    else Staged(p, m - 1, cba0)[m - 1 := PairByte(p, m - 1)]
  }

  /**
   What the staged buffer holds: the first `m` decoded bytes in front, the
   prior contents from index `m` on.
   */
  lemma {:induction false} StagedContents(p: seq<u8>, m: nat, cba0: seq<u8>)
    requires |cba0| == StagedSize && m <= StagedSize && 2 * m <= |p|
    requires forall k :: 0 <= k < m ==> PairOk(p, k)
    ensures forall k :: 0 <= k < m ==> Staged(p, m, cba0)[k] == PairByte(p, k)
    ensures forall k :: m <= k < StagedSize ==> Staged(p, m, cba0)[k] == cba0[k]
  {
    if m > 0 {
      StagedContents(p, m - 1, cba0);
    }
  }

  /**
   The accumulator `x` after `n` passes of the decode loop, starting from
   the seed.
   */
  function Accumulator(p: seq<u8>, n: nat): u32
    requires 2 * n <= |p| && forall k :: 0 <= k < n ==> PairOk(p, k)
  {
    if n == 0 then ChecksumInitial
    else PassAccumulator(Accumulator(p, n - 1), p, n - 1)
  }

  /**
   One pass's update of the accumulator over pair `k`: the value `x` held
   before the pass is overwritten by the table entry of the high character,
   and the decoded byte is added to that (a `uint32_t` sum).
   */
  function PassAccumulator(x: u32, p: seq<u8>, k: nat): (r: u32)
    requires 2 * k + 1 < |p| && PairOk(p, k)
    ensures r as int == PairByte(p, k) as int / 16 + PairByte(p, k) as int && r <= 270
  {
    PairByteNibbles(p, k);
    var x' := Hxbn(p[2 * k]) as u32;
    Add32(x', PairByte(p, k) as u32)
  }

  /**
   After at least one pass the seed is gone: the accumulator is the last
   pair's high nibble plus its byte, so at most 15 + 255.
   */
  lemma AccumulatorIsLastPair(p: seq<u8>, n: nat)
    requires 1 <= n && 2 * n <= |p| && forall k :: 0 <= k < n ==> PairOk(p, k)
    ensures var b := PairByte(p, n - 1);
      && Accumulator(p, n) as int == b as int / 16 + b as int
      && Accumulator(p, n) <= 270 && Accumulator(p, n) != ChecksumInitial
  {
    PairByteNibbles(p, n - 1);
  }

  /**
   The four in-place folding steps on the 32-bit accumulator: twice
   `x += x >> 16`, then twice `x += x >> 8`, as wrapping `uint32_t` sums.
   On the values the accumulator can hold here the low byte comes out as
   `x` itself below 256 and as `x - 254` from 256 on.
   */
  function Fold(x: u32): (r: u32)
    ensures x <= 270 ==> r % 256 == if x < 256 then x else x - 254
  {
    var x1 := Add32(x, x / 0x10000);
    var x2 := Add32(x1, x1 / 0x10000);
    var x3 := Add32(x2, x2 / 0x100);
    Add32(x3, x3 / 0x100)
  }

  /** The byte the stored checksum is compared with: `(uint8_t)x` after the fold. */
  function ChecksumByte(x: u32): (c: u8)
    ensures x <= 270 ==> c as int == if x < 256 then x as int else x as int - 254
  {
    (Fold(x) % 0x100) as u8
  }

  /**
   The identifier as assembled with logical `||` over the four bytes
   shifted left by 0, 8, 16 and 24: it collapses to 1 when any byte is
   nonzero, to 0 otherwise. (A shifted nonzero byte stays nonzero.)
   */
  function LogicalOrId(b1: u8, b2: u8, b3: u8, b4: u8): (id: u32)
    ensures id <= 1
    ensures id == 1 <==> b1 != 0 || b2 != 0 || b3 != 0 || b4 != 0
  {
    if b1 as int != 0 || b2 as int * 0x100 != 0
       || b3 as int * 0x1_0000 != 0 || b4 as int * 0x100_0000 != 0
    then 1 else 0
  }

  /**
   The illegal-identifier test `(id & 0x1FFFC) != 0 && (id & 0x4) == 0`:
   some bit from 2 to 16 set while the extended-frame flag (bit 2) is
   clear. It can hold only of an identifier with some bit from 3 to 16 set.
   */
  predicate IdRejected(id: u32)
    ensures IdRejected(id) ==> id % 0x2_0000 >= 8
  {
    id % 0x2_0000 / 4 != 0 && id / 4 % 2 == 0
  }

  /**
   The socket identifier as written. `w` and `y` are 8-bit variables, so
   storing the flag bits shifted left by 28 truncates them to 0; the 29-bit
   branch is never taken, and the logical `||` of the 11-bit branch yields
   1 only when some bit from 21 up is set.
   */
  function SocketId(id: u32): (r: u32)
    ensures r == if id >= 0x20_0000 then 1 else 0
    ensures id <= 1 ==> r == 0
  {
    var w: u8 := ((id / 4 % 2) as int * 0x4000_0000 % 0x100) as u8;  // (id & 0x4) << 28
    var y: u8 := ((id / 2 % 2) as int * 0x2000_0000 % 0x100) as u8;  // (id & 0x2) << 28
    var id29, id11 := id / 8, id / 0x20_0000;                         // id >> 3, id >> 21
    var extended: u32 := if id29 != 0 || y != 0 || w != 0 then 1 else 0;
    var standard: u32 := if id11 != 0 || y != 0 then 1 else 0;
    if w != 0 then extended else standard
  }

  /** The data length code: the low four bits of the DLC byte. */
  function DlcNibble(b: u8): (dlc: u8)
    ensures dlc < 16
  {
    b % 16
  }

  /**
   One call of the routine on input `p` (the strlen characters of the line)
   with staging buffer contents `cba0` before the call. The checks come in
   the source's order and the first that fails decides the code.
   */
  function Convert(p: seq<u8>, cba0: seq<u8>): (e: Effects)
    requires |cba0| == StagedSize
    ensures |e.cba| == StagedSize
  {
    if |p| > MaxLen then Rejected(TooLong, cba0)
    else if |p| < MinLen then Rejected(TooShort, cba0)
    else
      var n := PairCount(|p|);
      var m := GoodPairs(p, n);
      var cba := Staged(p, m, cba0);
      if m < n then Rejected(IllegalHex, cba)
      else CheckDecoded(cba, Accumulator(p, n))
  }

  /**
   The part of the routine after a successful decode, on the staging buffer
   `cba` and the accumulator `x` the decode loop left: field extraction,
   the identifier and length checks, the checksum comparison and the
   socket frame fields.
   */
  function CheckDecoded(cba: seq<u8>, x: u32): (e: Effects)
    requires |cba| == StagedSize
    ensures e.cba == cba
  {
    var seqNo := cba[0];
    var id := LogicalOrId(cba[1], cba[2], cba[3], cba[4]);
    if IdRejected(id) then
      Effects(IllegalId, cba, Some(seqNo), Some(id), None, None, None, false)
    else
      var dlc := DlcNibble(cba[5]);
      if dlc > MaxDlc then
        Effects(IllegalDlc, cba, Some(seqNo), Some(id), Some(dlc), None, None, false)
      else if cba[6 + dlc as int] != ChecksumByte(x) then
        Effects(ChecksumError, cba, Some(seqNo), Some(id), Some(dlc), Some(dlc), None, false)
      else
        Effects(Ok, cba, Some(seqNo), Some(id), Some(dlc), Some(dlc), Some(SocketId(id)), true)
  }
}
