# JPEG dimensions scanner, modelled in Dafny

This project models `JpegMetadata::from_bytes` of the `jpeg-decoder` command-line
tool. It takes a byte buffer and checks the Start-Of-Image marker `FF D8` (ITU-T T.81,
Annex B.1.1.3, Table B.1). It then walks the marker segments from offset 2. Each
segment other than SOF0 is skipped by its big-endian length plus 2. At the first
baseline Start-Of-Frame marker (`FF C0`), the scan returns the height and width
stored at offsets +5..+6 and +7..+8 of that marker.

Files:

- `bigendian.dfy` (module `BigEndian`): bytes (`bv8`), the `u16` type and `u16::from_be_bytes`.
- `jpeg.dfy` (module `Jpeg`): the error kinds, the metadata record, and the scan. The
  scan comes in two forms: `ScanFrom`/`FromBytes`, a recursive function, and
  `FromBytesLoop`, `from_bytes`'s `while` loop, proved to match it.
- `walk.dfy` (module `CursorWalk`): the chain of cursors the scan visits (`Reaches`).
  It holds the properties of the scan stated over that chain.
- `scenarios.dfy` (module `Scenarios`): concrete buffers and their outcomes.
- `resync.dfy` (module `Resync`): a repaired scan for the finding below.

The `while` loop of `from_bytes` never ends when the byte at the cursor is not `0xFF`: nothing
advances the cursor in that case. The model makes this case explicit as the outcome
`Stuck(cursor)` instead of excluding it by a precondition. Every other path
terminates, because each skip moves the cursor forward by at least 2.

Every index the scan reads is below `|bytes|`. Dafny's well-formedness checks on each
`bytes[k]` in `ScanFrom` and `FromBytesLoop` prove this. They rely on the same guards
`from_bytes` uses: the loop test, `i + 8 < len` before the SOF0 reads, and `i + 3 < len`
before the length read.

`FF D8` followed by two or more bytes, the first of which is not `0xFF`, makes
`from_bytes` loop forever (`Scenarios.MisalignedInputHangs`).

## Model

| member | source | states |
|---|---|---|
| BigEndian.FromBytes16 | src/main.rs:51-52 | the first byte is the high-order digit and the second the low-order digit of the 16-bit value |
| Jpeg.SegmentLength | src/main.rs:59 | the length field is the big-endian value of the two bytes after the marker code |
| Jpeg.NextCursor | src/main.rs:59-60 | skipping a segment moves the cursor forward by at least 2 and at most 65537; the distance beyond 2 is the declared big-endian segment length |
| Jpeg.Sof0Metadata | src/main.rs:51-52 | height is bytes[i+5]·256 + bytes[i+6] and width is bytes[i+7]·256 + bytes[i+8] |
| Jpeg.Decide | src/main.rs:42-66 | at a cursor that does not skip, the outcome is `SofNotFound` exactly when fewer than two bytes remain; `Stuck` at that cursor exactly when its byte is not 0xFF; Ok with that SOF0's dimensions exactly when an FF C0 has room up to +8; `UnexpectedEof` exactly when an SOF0 lacks bytes up to +8 or another marker lacks its length field; never `InvalidJpeg` |
| Jpeg.ScanFrom | src/main.rs:41-66 | the loop never reports a bad signature; a stuck outcome names an in-loop cursor holding a byte other than 0xFF; a success carries the dimensions of some SOF0 marker at or after the start cursor |
| Jpeg.FromBytes | src/main.rs:31-34 | the result is `InvalidJpeg` exactly when the buffer is shorter than 2 bytes or does not start with FF D8, whatever follows |
| Jpeg.FromBytesLoop | src/main.rs:31-67 | `from_bytes`'s `while` loop, with every read in bounds, returns the same outcome as the recursive scan |
| CursorWalk.StopCursor | src/main.rs:42-64 | the walk stops at or after its start, at a cursor that does not skip a segment |
| CursorWalk.ReachesExtend | src/main.rs:59-60 | skipping a segment from a reached cursor yields another reached cursor |
| CursorWalk.ScanFromReaches | src/main.rs:42-64 | skipping segments does not change the eventual outcome: the scan from a cursor equals the scan from any cursor it reaches |
| CursorWalk.ScanDecidedAtStop | src/main.rs:42-66 | the scan's outcome is the one-iteration outcome at the first cursor the walk reaches that does not skip |
| CursorWalk.ReachesLinear | src/main.rs:42-60 | the cursors visited form one chain: of two reached cursors, one reaches the other |
| CursorWalk.NothingReachedPastStop | src/main.rs:43-53 | no cursor past the first reached SOF0 marker (or other stopping cursor) is visited, so later SOF0 markers are never examined |
| CursorWalk.Sof0AtReachedCursor | src/main.rs:46-53 | an FF C0 at a reached cursor i gives Ok with height bytes[i+5]·256+bytes[i+6] and width bytes[i+7]·256+bytes[i+8] when i+8 < len, and `UnexpectedEof` otherwise |
| CursorWalk.TruncatedSegmentHeader | src/main.rs:55-57 | a marker other than C0 at a reached cursor i with i+3 ≥ len gives `UnexpectedEof` |
| CursorWalk.ExhaustedCursorIsSofNotFound | src/main.rs:42-66 | a reached cursor with i+1 ≥ len gives `SofNotFound`, not `UnexpectedEof`, including a cursor that overshot the buffer |
| CursorWalk.MisalignedCursorIsStuck | src/main.rs:42-43 | a reached in-loop cursor whose byte is not 0xFF is where `from_bytes`'s loop stops advancing |
| CursorWalk.OkComesFromReachedSof0 | src/main.rs:46-53 | every success carries the dimensions of an SOF0 marker at a reached cursor with i+8 < len |
| CursorWalk.SofNotFoundOnlyAtExhaustion | src/main.rs:42-66 | `SofNotFound` arises only when the walk reaches a cursor with fewer than two bytes left |
| CursorWalk.UnexpectedEofOnlyAtTruncation | src/main.rs:46-57 | `UnexpectedEof` arises only at a reached 0xFF whose SOF0 fields end past the buffer or whose other marker lacks a length field |
| CursorWalk.StuckCursorIsReached | src/main.rs:42-43 | the cursor where the loop stops advancing is one the walk reaches |
| CursorWalk.ScanFromIgnoresSuffix | src/main.rs:42-60 | a scan that succeeded or got stuck keeps its outcome when bytes are appended: it read nothing past the buffer and nothing past the first SOF0 |
| CursorWalk.DecidedPrefixIgnoresSuffix | src/main.rs:31-67 | the same, for the whole `from_bytes` |
| Scenarios.App0ThenSof0 | src/main.rs:31-60 | FF D8, an APP0 segment of length 16 with any 14 payload bytes, then FF C0 00 11 08 01 2C 02 58 and anything after gives width 600, height 300 |
| Scenarios.FirstSof0Wins | src/main.rs:46-53 | with two SOF0 segments, followed by any bytes, the first segment's dimensions are returned |
| Scenarios.TruncatedSof0 | src/main.rs:48-49 | an SOF0 marker with too few bytes after it gives `UnexpectedEof` |
| Scenarios.OversizedSegmentIsSofNotFound | src/main.rs:59-66 | a declared length of 0xFFFF in an 8-byte buffer sends the cursor past the end and gives `SofNotFound` |
| Scenarios.MisalignedInputHangs | src/main.rs:42-64 | FF D8, then any byte other than 0xFF, any byte, and anything after, leaves the loop at cursor 2 with nothing advancing it |
| Resync.ScanFromResync | src/main.rs:41-66 | the repaired loop always ends, and never reports a bad signature |
| Resync.FromBytesResync | src/main.rs:31-67 | the repaired scan always terminates; it reports `InvalidJpeg` exactly when the signature is missing |
| Resync.ScanFromResyncAgrees | src/main.rs:42-64 | from a cursor where the original loop does not hang, the repaired loop gives the same outcome |
| Resync.ScanFromResyncStuck | src/main.rs:43 | where the original loop hangs at a cursor, the repaired loop continues one byte later |
| Resync.ResyncAgreesWhenAligned | src/main.rs:31-67 | the repair agrees with `from_bytes` on every buffer where `from_bytes` terminates, and resumes past the offending byte otherwise |
| Resync.MisalignedInputResolves | src/main.rs:42-64 | FF D8 00 00 hangs in the original and gives `SofNotFound` in the repaired scan |

## Left out

- `JpegMetadata::from_file` (src/main.rs:24-29): file opening and reading. The scan takes the bytes as a parameter instead.
- `Args` and `main` (src/main.rs:70-91): command-line parsing and printing.
- The `thiserror` display strings and the `anyhow` wrapping (src/main.rs:8-16): errors are a plain three-constructor datatype.
- `usize` overflow of `i + segment_length + 2` (src/main.rs:60): cursors are `nat`. The overflow would need a buffer close to the address-space size.
- The zero-initialised `metadata` placeholder (src/main.rs:36-39): it is returned only after both fields are overwritten, so the model builds the record at the point of return.
- Idempotence: it is not stated as a lemma, because the model is a pure function and so returns the same outcome on every call.

## Findings

| source | as written | input that shows it | evidently intended | confidence | as-written member | corrected member |
|---|---|---|---|---|---|---|
| src/main.rs:42-64 | when the byte at the cursor is not 0xFF, the loop body does nothing and the cursor never moves, so the loop never ends | FF D8 00 00 | every buffer gets a result: the loop moves past a byte that is not 0xFF | high (not executed) | Scenarios.MisalignedInputHangs | Resync.FromBytesResync |
