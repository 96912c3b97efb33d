# can_os_cnvt in Dafny

A model of `cantranslate/can-os.c`, the routine that turns one line of
"Our Format" CAN traffic (a sequence byte, four identifier bytes, a DLC byte,
up to eight payload bytes and a checksum byte, written as ASCII hex) into a
SocketCAN `struct can_frame`, together with the nibble table `hxbn` it decodes
with. The routine is modelled as the code behaves, not as its comments say.

- `hex_table.dfy` (module `HexTable`): the constant table `hxbn` as a total
  function on bytes, with the upper- and lower-case digit spellings it reads
  back.
- `can_os_spec.dfy` (module `CanOsSpec`): a value-level reference
  `Convert(p, cba0)`. It takes the line `p` (its `strlen` characters) and the
  staging buffer `cba` as it was before the call. It returns the return code
  and everything the routine writes: the buffer afterwards, plus each field of
  `CANALL` and `can_frame` that is written before the routine returns. The
  decode loop, the 32-bit accumulator, the carry fold, the identifier
  assembly and the socket identifier are spelled out in the arithmetic the C
  code performs on `uint8_t` and `uint32_t`, with wrap-around.
- `can_os.dfy` (module `CanOs`): the routine as imperative code. `CanAll` and
  `CanFrame` are classes whose fields are updated in place. The decode loop
  writes the 16-byte `cba` array pair by pair. `CanOsCnvt` returns early like
  the C code, and its postcondition ties the return code and every field to
  `Convert`.
- `can_os_properties.dfy` (module `CanOsProperties`): what the routine
  guarantees, and the consequences of the code as written.
  - The error codes are checked in order.
  - Pair decoding stops at the first bad pair.
  - The identifier is 0 or 1 because it is built with logical `||`, so the
    illegal-identifier check (-4) can never fire.
  - The 8-bit `w`/`y` truncation makes the socket identifier 0 on success.
  - Each loop pass overwrites the accumulator, so the 0xa5a5 seed never
    reaches the checksum. A correctly laid-out frame is therefore accepted
    exactly when its checksum byte is below 16.
  - Nothing checks the line's length against the DLC, so the checksum can be
    read from a byte of `cba` that this call never wrote. A concrete witness
    line shows it.
  - Bytes written as hex text decode back to the same bytes.

A reader of the format would expect a bitwise-or identifier, a table that
rejects every non-hex byte, and a staging buffer rewritten on every call. The
code does otherwise, and the model follows the code:
- The identifier is assembled with logical `||`, not bitwise `|`.
- The table also maps '`' (0x60) to 0.
- The staging buffer is not fully overwritten by each call: bytes beyond the
  decoded pairs keep their prior contents, and the checksum may be read from
  them.

## Model

| member | source | states |
|---|---|---|
| HexTable.Hxbn | cantranslate/can-os.c:13-32 | every entry is E (255) or a nibble below 16, and it is not E exactly for the hex digits and '`' |
| HexTable.HxbnDigits | cantranslate/can-os.c:19-22 | a hex digit reads back as the nibble it spells, in upper or lower case, and '`' reads as 0 |
| HexTable.NibbleRoundTrip | cantranslate/can-os.c:19-22 | every nibble is read back from both spellings of its digit |
| CanOsSpec.Add32 | cantranslate/can-os.c:73 | a `uint32_t` sum equals the integer sum below 2^32 and wraps by 2^32 above |
| CanOsSpec.Code.Rc | cantranslate/can-os.c:47-53 | the seven outcomes map to 0 .. -6, and 0 exactly for success |
| CanOsSpec.PairCount | cantranslate/can-os.c:69-70 | the loop reads `2n <= len` characters and skips at most the last one, so an even length decodes its final character |
| CanOsSpec.PairOk | cantranslate/can-os.c:71 | no contract of its own: the pass's test that neither character's table entry is E; `IllegalHexIff` and `CanOs.DecodePass` state its role |
| CanOsSpec.PairByte | cantranslate/can-os.c:72 | no contract of its own: the byte stored for a pair, the high nibble shifted left by 4 and or-ed with the low one; `PairByteNibbles` states its nibbles and `DecodeEncodedPair` that it inverts hex spelling |
| CanOsSpec.PairByteNibbles | cantranslate/can-os.c:72 | the decoded byte's high nibble is the first character's value and its low nibble the second's |
| CanOsSpec.GoodPairs | cantranslate/can-os.c:70-77 | every pair before the stopping point decodes, and the pair at the stopping point does not |
| CanOsSpec.GoodPairsStopsAt | cantranslate/can-os.c:70-77 | the first pair that fails to decode is where decoding stops |
| CanOsSpec.StagedContents | cantranslate/can-os.c:68-74 | after m pairs `cba[k]` holds pair k's byte for k < m and its prior value from m on |
| CanOsSpec.Staged | cantranslate/can-os.c:68-74 | the staging buffer stays 16 bytes after the loop's in-place writes; `StagedContents` states its contents |
| CanOsSpec.PassAccumulator | cantranslate/can-os.c:71-73 | one pass leaves the pair's high nibble plus its byte, at most 270, whatever the accumulator held before: the lookup overwrites it |
| CanOsSpec.Accumulator | cantranslate/can-os.c:57-73 | no contract of its own: the seed, then one pass per pair; `AccumulatorIsLastPair` states its value |
| CanOsSpec.AccumulatorIsLastPair | cantranslate/can-os.c:71-73 | after any pass the accumulator is the last pair's high nibble plus its byte (at most 270), never the seed 0xa5a5 |
| CanOsSpec.Fold | cantranslate/can-os.c:106-109 | for accumulators up to 270 the low byte after the four carry folds is `x` below 256 and `x - 254` from 256 on |
| CanOsSpec.ChecksumByte | cantranslate/can-os.c:110 | for accumulators up to 270 the compared byte `(uint8_t)x` is `x` below 256 and `x - 254` from 256 on |
| CanOsSpec.LogicalOrId | cantranslate/can-os.c:85-89 | the assembled identifier is at most 1, and 1 exactly when one of the four bytes is nonzero |
| CanOsSpec.IdRejected | cantranslate/can-os.c:92 | the illegal-identifier test can hold only when some bit from 3 to 16 is set |
| CanOsSpec.SocketId | cantranslate/can-os.c:116-123 | the 8-bit `w`/`y` truncate to 0, so the socket identifier is 1 exactly when a bit from 21 up is set, and 0 for identifiers up to 1 |
| CanOsSpec.DlcNibble | cantranslate/can-os.c:97 | the DLC is below 16 |
| CanOsSpec.Convert | cantranslate/can-os.c:55-129 | the staging buffer stays 16 bytes long on every path |
| CanOsSpec.CheckDecoded | cantranslate/can-os.c:80-128 | the checks after decoding leave the staging buffer unchanged |
| CanOs.DecodePass | cantranslate/can-os.c:71-77 | when both characters decode, stores pair j's byte in `cba[j]` and returns the accumulator after j+1 passes; otherwise stores nothing |
| CanOs.DecodePairs | cantranslate/can-os.c:67-78 | the loop succeeds exactly when every pair decodes, leaves `cba` as the staged buffer after the pairs it stored, and leaves the accumulator of all passes |
| CanOs.Repack | cantranslate/can-os.c:80-128 | the return code and every field written by the field, identifier, DLC, checksum and frame steps agree with the reference, and unwritten fields keep their values |
| CanOs.CanOsCnvt | cantranslate/can-os.c:55-129 | the return code, the staging buffer and every field of both structures agree with `Convert`, and the payload is copied only on success |
| CanOsProperties.LengthGate | cantranslate/can-os.c:63-65 | -1 exactly when the length is above 31 and -2 exactly when it is below 15, with nothing written in either case |
| CanOsProperties.IllegalHexIff | cantranslate/can-os.c:70-77 | with an accepted length, -3 is returned exactly when a character the loop reads has no table entry |
| CanOsProperties.IllegalHexStopsAtFirstBadPair | cantranslate/can-os.c:70-77 | on -3 the pairs before the first bad pair are stored, the rest of `cba` is unchanged, and no field is written |
| CanOsProperties.Idempotent | cantranslate/can-os.c:68-74 | a second call with the same line on the buffer the first call left has exactly the same effects |
| CanOsProperties.IllegalIdUnreachable | cantranslate/can-os.c:85-94 | -4 is never returned, and the identifier written is 0 or 1 |
| CanOsProperties.ConvertDecoded | cantranslate/can-os.c:67-78 | on a line whose pairs all decode, all pairs are stored and the rest of the routine works on the staged buffer and the final accumulator |
| CanOsProperties.FieldsExtracted | cantranslate/can-os.c:81-89 | the sequence number is `cba[0]`, and the identifier is 1 when any of `cba[1..4]` is nonzero and 0 otherwise |
| CanOsProperties.AcceptedIff | cantranslate/can-os.c:63-112 | 0 is returned exactly when the length is accepted, every pair decodes, the DLC is at most 8 and `cba[6+dlc]` equals the folded checksum |
| CanOsProperties.CheckedDlc | cantranslate/can-os.c:96-102 | -5 is returned exactly when the DLC nibble is above 8; otherwise `can_dlc` is written and the checksum index is at most 14 |
| CanOsProperties.CheckedOutcome | cantranslate/can-os.c:110-111 | with a legal DLC the outcome is decided by `cba[6+dlc]` against the folded checksum byte |
| CanOsProperties.ExpectedChecksumValue | cantranslate/can-os.c:106-110 | the expected checksum is the last byte's high nibble plus the byte, less 254 from 256 on, and equals the last byte exactly when that byte is below 16 |
| CanOsProperties.CheckedLastByte | cantranslate/can-os.c:71-111 | the checksum comparison depends only on the last decoded byte and the byte at `6+dlc` |
| CanOsProperties.DlcGate | cantranslate/can-os.c:97-102 | on a decoded line -5 is returned exactly for a DLC above 8, and `can_dlc` is written whenever that check is passed |
| CanOsProperties.ChecksumTest | cantranslate/can-os.c:104-112 | on a decoded line with a legal DLC, 0 is returned exactly when `cba[6+dlc]` equals the expected checksum of the last decoded byte, and -6 otherwise |
| CanOsProperties.StaleChecksumByte | cantranslate/can-os.c:110 | when the line decodes fewer bytes than `6+dlc+1`, the compared byte is the buffer's prior content, and that prior content decides the outcome |
| CanOsProperties.ShortFrameChecksumStale | cantranslate/can-os.c:110-111 | a seven-byte line announcing DLC 8 is judged by the buffer's prior byte 14 |
| CanOsProperties.StaleChecksumWitness | cantranslate/can-os.c:110-111 | the line "000000000008000" is accepted exactly when the prior byte 14 is 0 |
| CanOsProperties.SuccessWrites | cantranslate/can-os.c:114-128 | on success `can_id` is 0, `can_dlc` is the DLC (at most 8), `seq` is `cba[0]` and the payload is copied |
| CanOsProperties.DecodeEncodedPair | cantranslate/can-os.c:71-72 | the pair decoded from two upper-case hex digits is the byte they spell |
| CanOsProperties.EncodedLineDecodes | cantranslate/can-os.c:67-78 | bytes written as hex, plus at most one unread character, form a line of accepted length whose pairs decode to those bytes |
| CanOsProperties.DecodeEncoded | cantranslate/can-os.c:63-78 | such a line passes the length and hex checks, puts the bytes at the front of `cba` in order, and keeps the rest of `cba` |
| CanOsProperties.WellFormedFrameAcceptedIffChecksumBelow16 | cantranslate/can-os.c:57-112 | a frame laid out in full, with the checksum byte last, is accepted exactly when that byte is below 16, whatever the payload, and gets -6 otherwise |

The class `CanOs.CanAll` stands for `struct CANALL`: `cba` is `pall->cba`,
`seqNo` is `pall->seq`, `id` is `pall->can.id`, `dlc` is `pall->can.dlc` and
`cd` is the payload `pall->can.cd`. The class `CanOs.CanFrame` stands for
`struct can_frame`: `canId` is `can_id`, `canDlc` is `can_dlc` and `data` is
`data[8]`.

## Left out

- The line is the sequence of its `strlen` characters: NUL termination and the pointer walk over a C string are not modelled.
- Characters index the table as unsigned bytes (0..255). A signed `char` above 0x7F would index `hxbn` out of bounds; that is not modelled.
- The loop bound: in the source, `pend` is computed from the staging buffer's address, not the line's, so `p < pend` compares pointers into different objects. The model ends the loop at line start + length − 1, as evidently intended.
- The signed-integer overflow of `byte << 24` in the identifier assembly is not modelled: under `||` only whether each shifted byte is zero matters, and a nonzero byte stays nonzero.
- The payload `can.cd` is an abstract 8-byte array in `CanAll`, copied into `can_frame.data` on success. The layout of the `CANALL` union (can-os.h) is not part of this model, so nothing relates `cd` to the decoded bytes.
- The SocketCAN flag constants of `struct can_frame` and the contents of `common_can.h` are not part of this model; `CHECKSUM_INITIAL` is the constant 0xa5a5.
- The commented-out helper `unhex` (can-os.c:34-39) is dead code and is not modelled.
- CanOsSpec.Convert: its own contract states only the buffer length; what it computes is stated by the lemmas of `CanOsProperties` and by `CanOs.CanOsCnvt`.
- CanOsSpec.CheckDecoded: its own contract states only that the buffer is kept; its outcomes are stated by `CheckedDlc`, `CheckedOutcome` and `SuccessWrites`.
