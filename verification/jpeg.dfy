/**
 * The JPEG marker scanner: from an untrusted byte buffer it reads the image
 * width and height out of the first baseline Start-Of-Frame (SOF0) segment,
 * skipping every other marker segment by its declared length.
 */
module Jpeg {
  import opened BigEndian

  /** The three ways the scan can fail. */
  datatype JpegError = InvalidJpeg | UnexpectedEof | SofNotFound

  /** Image dimensions, as read from an SOF0 segment. */
  datatype JpegMetadata = JpegMetadata(width: u16, height: u16)

  /**
   * What one scan yields. `Stuck(cursor)` stands for the case where `from_bytes`'s
   * `while` loop spins forever: the byte at `cursor` is not 0xFF, and nothing moves the cursor.
   */
  datatype Outcome = Ok(metadata: JpegMetadata) | Err(error: JpegError) | Stuck(cursor: nat)

  /** The Start-Of-Image marker FF D8 (ITU-T T.81, Annex B.1.1.3, Table B.1). */
  predicate HasSoiSignature(bytes: seq<Byte>)
  {
    |bytes| >= 2 && bytes[0] == 0xFF && bytes[1] == 0xD8
  }

  /** An SOF0 marker, FF C0, sits at cursor `i`. */
  predicate IsSof0At(bytes: seq<Byte>, i: nat)
  {
    i + 1 < |bytes| && bytes[i] == 0xFF && bytes[i + 1] == 0xC0
  }

  /** The big-endian length field that follows a marker at `i`; it counts its own two bytes. */
  function SegmentLength(bytes: seq<Byte>, i: nat): (len: u16)
    requires i + 3 < |bytes|
    ensures len as int == bytes[i + 2] as int * 256 + bytes[i + 3] as int
  {
    FromBytes16(bytes[i + 2], bytes[i + 3])
  }

  /** Where the cursor goes after skipping the segment of a non-SOF0 marker at `i`. */
  function NextCursor(bytes: seq<Byte>, i: nat): (n: nat)
    requires i + 3 < |bytes|
    ensures i + 2 <= n <= i + 0x1_0001
    ensures n - i - 2 == bytes[i + 2] as int * 256 + bytes[i + 3] as int
  {
    i + SegmentLength(bytes, i) as int + 2
  }

  /** The dimensions held by an SOF0 segment whose marker sits at `i`. */
  function Sof0Metadata(bytes: seq<Byte>, i: nat): (m: JpegMetadata)
    requires i + 8 < |bytes|
    ensures m.height as int == bytes[i + 5] as int * 256 + bytes[i + 6] as int
    ensures m.width as int == bytes[i + 7] as int * 256 + bytes[i + 8] as int
  {
    JpegMetadata(width := FromBytes16(bytes[i + 7], bytes[i + 8]),
                 height := FromBytes16(bytes[i + 5], bytes[i + 6]))
  }

  /** The loop leaves cursor `i` by skipping a non-SOF0 segment. */
  predicate CanSkip(bytes: seq<Byte>, i: nat)
  {
    i + 3 < |bytes| && bytes[i] == 0xFF && bytes[i + 1] != 0xC0
  }

  /**
   * The outcome of one loop iteration at a cursor that does not skip: each
   * outcome corresponds to exactly one guard of the loop body that stops the scan.
   */
  function Decide(bytes: seq<Byte>, i: nat): (r: Outcome)
    requires !CanSkip(bytes, i)
    ensures r != Err(InvalidJpeg)
    ensures r == Err(SofNotFound) <==> i + 1 >= |bytes|
    ensures r.Stuck? <==> i + 1 < |bytes| && bytes[i] != 0xFF
    ensures r.Stuck? ==> r.cursor == i
    ensures r.Ok? <==> IsSof0At(bytes, i) && i + 8 < |bytes|
    ensures r.Ok? ==> r.metadata == Sof0Metadata(bytes, i)
    ensures r == Err(UnexpectedEof) <==>
              && i + 1 < |bytes| && bytes[i] == 0xFF
              && ((bytes[i + 1] == 0xC0 && i + 8 >= |bytes|) || (bytes[i + 1] != 0xC0 && i + 3 >= |bytes|))
  {
    if i + 1 >= |bytes| then Err(SofNotFound)
    else if bytes[i] != 0xFF then Stuck(i)
    else if bytes[i + 1] == 0xC0 then
      if i + 8 >= |bytes| then Err(UnexpectedEof) else Ok(Sof0Metadata(bytes, i))
    else Err(UnexpectedEof)
  }

  /**
   * The segment loop, from cursor `i` on. The loop runs while two bytes remain
   * at the cursor; every index it reads is checked against `|bytes|` first.
   */
  function ScanFrom(bytes: seq<Byte>, i: nat): (r: Outcome)
    decreases |bytes| - i
    ensures r != Err(InvalidJpeg)
    ensures r.Stuck? ==> i <= r.cursor && r.cursor + 1 < |bytes| && bytes[r.cursor] != 0xFF
    ensures r.Ok? ==> exists c :: i <= c && c + 8 < |bytes| && IsSof0At(bytes, c) && r.metadata == Sof0Metadata(bytes, c)
  {
    if CanSkip(bytes, i) then ScanFrom(bytes, NextCursor(bytes, i)) else Decide(bytes, i)
  }

  /** `JpegMetadata::from_bytes`: check the signature, then scan from offset 2. */
  function FromBytes(bytes: seq<Byte>): (r: Outcome)
    ensures r == Err(InvalidJpeg) <==> !HasSoiSignature(bytes)
    ensures r.Stuck? ==> 2 <= r.cursor && r.cursor + 1 < |bytes| && bytes[r.cursor] != 0xFF
  {
    if !HasSoiSignature(bytes) then Err(InvalidJpeg)
    else ScanFrom(bytes, 2)
  }

  /**
   * The scan written as `from_bytes`'s `while` loop. Where that loop would spin
   * forever on a byte that is not 0xFF, this returns `Stuck` at that cursor.
   */
  method FromBytesLoop(bytes: seq<Byte>) returns (r: Outcome)
    ensures r == FromBytes(bytes)
  {
    if !HasSoiSignature(bytes) {
      return Err(InvalidJpeg);
    }
    var i: nat := 2;
    while i < |bytes| - 1
      invariant ScanFrom(bytes, i) == ScanFrom(bytes, 2)
      decreases |bytes| - i
    {
      if bytes[i] == 0xFF {
        var marker := bytes[i + 1];
        if marker == 0xC0 {
          if i + 8 >= |bytes| {
            return Err(UnexpectedEof);
          }
          var height := FromBytes16(bytes[i + 5], bytes[i + 6]);
          var width := FromBytes16(bytes[i + 7], bytes[i + 8]);
          return Ok(JpegMetadata(width, height));
        } else {
          if i + 3 >= |bytes| {
            return Err(UnexpectedEof);
          }
          var segmentLength := FromBytes16(bytes[i + 2], bytes[i + 3]);
          i := i + segmentLength as int + 2;
        }
      } else {
        return Stuck(i);
      }
    }
    return Err(SofNotFound);
  }
}
