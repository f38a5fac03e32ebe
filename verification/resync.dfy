/**
 * The scan with the non-terminating case repaired: a cursor byte that is not
 * 0xFF is passed over and the loop moves on by one byte, so every buffer gets
 * a definite result.
 */
module Resync {
  import opened BigEndian
  import opened Jpeg

  /** The segment loop from cursor `i`, moving past a byte that is not 0xFF. */
  function ScanFromResync(bytes: seq<Byte>, i: nat): (r: Outcome)
    decreases |bytes| - i
    ensures !r.Stuck? && r != Err(InvalidJpeg)
  {
    if i + 1 >= |bytes| then Err(SofNotFound)
    else if bytes[i] != 0xFF then ScanFromResync(bytes, i + 1)
    else if bytes[i + 1] == 0xC0 then
      if i + 8 >= |bytes| then Err(UnexpectedEof) else Ok(Sof0Metadata(bytes, i))
    else if i + 3 >= |bytes| then Err(UnexpectedEof)
    else ScanFromResync(bytes, NextCursor(bytes, i))
  }

  /** `from_bytes` with the repaired loop: it always terminates with a result or an error. */
  function FromBytesResync(bytes: seq<Byte>): (r: Outcome)
    ensures !r.Stuck?
    ensures r == Err(InvalidJpeg) <==> !HasSoiSignature(bytes)
  {
    if !HasSoiSignature(bytes) then Err(InvalidJpeg)
    else ScanFromResync(bytes, 2)
  }

  /** From a cursor where the original scan does not get stuck, both scans agree. */
  lemma {:induction false} ScanFromResyncAgrees(bytes: seq<Byte>, i: nat)
    requires !ScanFrom(bytes, i).Stuck?
    ensures ScanFromResync(bytes, i) == ScanFrom(bytes, i)
    decreases |bytes| - i
  {
    if i + 3 < |bytes| && bytes[i] == 0xFF && bytes[i + 1] != 0xC0 {
      ScanFromResyncAgrees(bytes, NextCursor(bytes, i));
    }
  }

  /**
   * The repair changes nothing on buffers the original scan handles; where the
   * original gets stuck at a cursor, the repaired scan carries on one byte later.
   */
  lemma ResyncAgreesWhenAligned(bytes: seq<Byte>)
    ensures !FromBytes(bytes).Stuck? ==> FromBytesResync(bytes) == FromBytes(bytes)
    ensures FromBytes(bytes).Stuck? ==>
              FromBytesResync(bytes) == ScanFromResync(bytes, FromBytes(bytes).cursor + 1)
  {
    if HasSoiSignature(bytes) {
      ScanFromResyncStuck(bytes, 2);
      if !FromBytes(bytes).Stuck? {
        ScanFromResyncAgrees(bytes, 2);
      }
    }
  }

  /** Where the original scan from `i` gets stuck, the repaired one resumes past that byte. */
  lemma {:induction false} ScanFromResyncStuck(bytes: seq<Byte>, i: nat)
    ensures ScanFrom(bytes, i).Stuck? ==>
              ScanFromResync(bytes, i) == ScanFromResync(bytes, ScanFrom(bytes, i).cursor + 1)
    decreases |bytes| - i
  {
    if i + 3 < |bytes| && bytes[i] == 0xFF && bytes[i + 1] != 0xC0 {
      ScanFromResyncStuck(bytes, NextCursor(bytes, i));
    }
  }

  /** The buffer on which the original loop hangs gets `SofNotFound` from the repaired one. */
  lemma MisalignedInputResolves()
    ensures FromBytes([0xFF, 0xD8, 0x00, 0x00]) == Stuck(2)
    ensures FromBytesResync([0xFF, 0xD8, 0x00, 0x00]) == Err(SofNotFound)
  {
  }
}
