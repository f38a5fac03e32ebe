/** Concrete buffers and what the scanner makes of them. */
module Scenarios {
  import opened BigEndian
  import opened Jpeg
  import opened CursorWalk

  /**
   * SOI, an APP0 segment of declared length 16 (14 payload bytes of any value),
   * then an SOF0 segment holding height 0x012C and width 0x0258, then anything.
   */
  lemma App0ThenSof0(payload: seq<Byte>, rest: seq<Byte>)
    requires |payload| == 14
    ensures FromBytes([0xFF, 0xD8, 0xFF, 0xE0, 0x00, 0x10] + payload
                      + [0xFF, 0xC0, 0x00, 0x11, 0x08, 0x01, 0x2C, 0x02, 0x58] + rest)
            == Ok(JpegMetadata(width := 600, height := 300))
  {
    var b := [0xFF, 0xD8, 0xFF, 0xE0, 0x00, 0x10] + payload
             + [0xFF, 0xC0, 0x00, 0x11, 0x08, 0x01, 0x2C, 0x02, 0x58];
    assert CanSkip(b, 2) && NextCursor(b, 2) == 20;
    assert Reaches(b, 20, 20);
    assert Reaches(b, 2, 20);
    Sof0AtReachedCursor(b, 20);
    DecidedPrefixIgnoresSuffix(b, rest);
  }

  /** Two SOF0 segments with different dimensions: the first one gives the result. */
  lemma FirstSof0Wins(rest: seq<Byte>)
    ensures FromBytes([0xFF, 0xD8,
                       0xFF, 0xC0, 0x00, 0x11, 0x08, 0x00, 0x01, 0x00, 0x02,
                       0xFF, 0xC0, 0x00, 0x11, 0x08, 0x00, 0x03, 0x00, 0x04] + rest)
            == Ok(JpegMetadata(width := 2, height := 1))
  {
    var b: seq<Byte> := [0xFF, 0xD8,
                         0xFF, 0xC0, 0x00, 0x11, 0x08, 0x00, 0x01, 0x00, 0x02,
                         0xFF, 0xC0, 0x00, 0x11, 0x08, 0x00, 0x03, 0x00, 0x04];
    assert Sof0Metadata(b, 2) == JpegMetadata(width := 2, height := 1);
    DecidedPrefixIgnoresSuffix(b, rest);
  }

  /** An SOF0 marker with fewer than seven bytes after its code is `UnexpectedEof`. */
  lemma TruncatedSof0()
    ensures FromBytes([0xFF, 0xD8, 0xFF, 0xC0, 0x00, 0x11, 0x08, 0x00, 0x01, 0x00]) == Err(UnexpectedEof)
  {
  }

  /**
   * A segment length larger than what is left sends the cursor past the end of the
   * buffer: the loop exits and the result is `SofNotFound`, not `UnexpectedEof`.
   */
  lemma OversizedSegmentIsSofNotFound()
    ensures FromBytes([0xFF, 0xD8, 0xFF, 0xE1, 0xFF, 0xFF, 0x00, 0x00]) == Err(SofNotFound)
  {
  }

  /** Any byte other than 0xFF right after the signature, then anything: `from_bytes`'s loop never ends. */
  lemma MisalignedInputHangs(x: Byte, y: Byte, rest: seq<Byte>)
    requires x != 0xFF
    ensures FromBytes([0xFF, 0xD8, x, y] + rest) == Stuck(2)
  {
  }
}
