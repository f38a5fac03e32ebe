/**
 * The cursor walk of the scanner: the chain of cursors it visits by skipping
 * non-SOF0 segments, and what decides the outcome at the end of that chain.
 */
module CursorWalk {
  import opened BigEndian
  import opened Jpeg

  /** Cursor `j` is reached from cursor `i` by zero or more segment skips. */
  predicate Reaches(bytes: seq<Byte>, i: nat, j: nat)
    decreases j - i
  {
    i == j || (i < j && CanSkip(bytes, i) && Reaches(bytes, NextCursor(bytes, i), j))
  }

  /** The cursor at which the walk from `i` stops skipping. */
  function StopCursor(bytes: seq<Byte>, i: nat): (c: nat)
    decreases |bytes| - i
    ensures i <= c && !CanSkip(bytes, c)
  {
    if CanSkip(bytes, i) then StopCursor(bytes, NextCursor(bytes, i)) else i
  }

  /** Skipping from a reached cursor reaches the next one. */
  lemma {:induction false} ReachesExtend(bytes: seq<Byte>, i: nat, j: nat)
    requires Reaches(bytes, i, j) && CanSkip(bytes, j)
    ensures Reaches(bytes, i, NextCursor(bytes, j))
    decreases j - i
  {
    if i != j {
      ReachesExtend(bytes, NextCursor(bytes, i), j);
    }
  }

  /** The scan from a cursor gives the same outcome as the scan from any cursor it reaches. */
  lemma {:induction false} ScanFromReaches(bytes: seq<Byte>, i: nat, j: nat)
    requires Reaches(bytes, i, j)
    ensures ScanFrom(bytes, i) == ScanFrom(bytes, j)
    decreases j - i
  {
    if i != j {
      ScanFromReaches(bytes, NextCursor(bytes, i), j);
    }
  }

  /**
   * Reference definition of the scan: the walk from `i` reaches its stop cursor,
   * and the outcome is the one decided there.
   */
  lemma {:induction false} ScanDecidedAtStop(bytes: seq<Byte>, i: nat)
    ensures Reaches(bytes, i, StopCursor(bytes, i))
    ensures ScanFrom(bytes, i) == Decide(bytes, StopCursor(bytes, i))
    decreases |bytes| - i
  {
    if CanSkip(bytes, i) {
      ScanDecidedAtStop(bytes, NextCursor(bytes, i));
    }
  }

  /** The walk is a single chain: of two cursors reached from `a`, one reaches the other. */
  lemma {:induction false} ReachesLinear(bytes: seq<Byte>, a: nat, i: nat, j: nat)
    requires Reaches(bytes, a, i) && Reaches(bytes, a, j)
    ensures Reaches(bytes, i, j) || Reaches(bytes, j, i)
    decreases i - a
  {
    if a != i && a != j {
      ReachesLinear(bytes, NextCursor(bytes, a), i, j);
    }
  }

  /**
   * Once the walk reaches a cursor that does not skip (an SOF0 marker, a truncated
   * header, a misaligned byte, or the end), no cursor past it is ever reached:
   * in particular an SOF0 marker after the first one reached is never examined.
   */
  lemma NothingReachedPastStop(bytes: seq<Byte>, a: nat, i: nat, j: nat)
    requires Reaches(bytes, a, i) && !CanSkip(bytes, i)
    requires Reaches(bytes, a, j)
    ensures j <= i
  {
    ReachesLinear(bytes, a, i, j);
  }

  /**
   * An SOF0 marker at a reached cursor decides the scan: its dimensions when the
   * segment holds bytes up to offset +8, and `UnexpectedEof` otherwise.
   */
  lemma Sof0AtReachedCursor(bytes: seq<Byte>, i: nat)
    requires HasSoiSignature(bytes) && Reaches(bytes, 2, i) && IsSof0At(bytes, i)
    ensures i + 8 < |bytes| ==>
      && FromBytes(bytes).Ok?
      && FromBytes(bytes).metadata.height as int == bytes[i + 5] as int * 256 + bytes[i + 6] as int
      && FromBytes(bytes).metadata.width as int == bytes[i + 7] as int * 256 + bytes[i + 8] as int
    ensures i + 8 >= |bytes| ==> FromBytes(bytes) == Err(UnexpectedEof)
  {
    ScanFromReaches(bytes, 2, i);
  }

  /** Any other marker at a reached cursor without room for its length field ends in `UnexpectedEof`. */
  lemma TruncatedSegmentHeader(bytes: seq<Byte>, i: nat)
    requires HasSoiSignature(bytes) && Reaches(bytes, 2, i)
    requires i + 1 < |bytes| && bytes[i] == 0xFF && bytes[i + 1] != 0xC0 && i + 3 >= |bytes|
    ensures FromBytes(bytes) == Err(UnexpectedEof)
  {
    ScanFromReaches(bytes, 2, i);
  }

  /**
   * A reached cursor with fewer than two bytes left, including one that overshot
   * the buffer through an oversized segment length, ends in `SofNotFound`.
   */
  lemma ExhaustedCursorIsSofNotFound(bytes: seq<Byte>, i: nat)
    requires HasSoiSignature(bytes) && Reaches(bytes, 2, i) && i + 1 >= |bytes|
    ensures FromBytes(bytes) == Err(SofNotFound)
  {
    ScanFromReaches(bytes, 2, i);
  }

  /** A reached cursor whose byte is not 0xFF is where `from_bytes`'s loop stops advancing. */
  lemma MisalignedCursorIsStuck(bytes: seq<Byte>, i: nat)
    requires HasSoiSignature(bytes) && Reaches(bytes, 2, i)
    requires i + 1 < |bytes| && bytes[i] != 0xFF
    ensures FromBytes(bytes) == Stuck(i)
  {
    ScanFromReaches(bytes, 2, i);
  }

  /** A successful scan read its dimensions from an SOF0 marker the walk reached. */
  lemma OkComesFromReachedSof0(bytes: seq<Byte>)
    requires FromBytes(bytes).Ok?
    ensures exists i: nat :: Reaches(bytes, 2, i) && IsSof0At(bytes, i) && i + 8 < |bytes|
                        && FromBytes(bytes).metadata == Sof0Metadata(bytes, i)
  {
    ScanDecidedAtStop(bytes, 2);
    var c := StopCursor(bytes, 2);
    assert Reaches(bytes, 2, c) && IsSof0At(bytes, c) && c + 8 < |bytes|;
  }

  /** `SofNotFound` happens exactly when the walk runs out of bytes. */
  lemma SofNotFoundOnlyAtExhaustion(bytes: seq<Byte>)
    requires FromBytes(bytes) == Err(SofNotFound)
    ensures exists i: nat :: Reaches(bytes, 2, i) && i + 1 >= |bytes|
  {
    ScanDecidedAtStop(bytes, 2);
    assert Reaches(bytes, 2, StopCursor(bytes, 2));
  }

  /** `UnexpectedEof` happens only at a reached marker whose SOF0 fields or length field run past the end. */
  lemma UnexpectedEofOnlyAtTruncation(bytes: seq<Byte>)
    requires FromBytes(bytes) == Err(UnexpectedEof)
    ensures exists i: nat :: Reaches(bytes, 2, i) && i + 1 < |bytes| && bytes[i] == 0xFF
                             && ((bytes[i + 1] == 0xC0 && i + 8 >= |bytes|)
                                 || (bytes[i + 1] != 0xC0 && i + 3 >= |bytes|))
  {
    ScanDecidedAtStop(bytes, 2);
    assert Reaches(bytes, 2, StopCursor(bytes, 2));
  }

  /** The cursor where the loop stops advancing is one the walk reaches. */
  lemma StuckCursorIsReached(bytes: seq<Byte>)
    requires FromBytes(bytes).Stuck?
    ensures Reaches(bytes, 2, FromBytes(bytes).cursor)
  {
    ScanDecidedAtStop(bytes, 2);
  }

  /**
   * Bytes appended after a buffer whose scan succeeded (or got stuck) change nothing:
   * the scan read only indices below the original length, and never looked past
   * the first SOF0 marker it reached.
   */
  lemma {:induction false} ScanFromIgnoresSuffix(bytes: seq<Byte>, rest: seq<Byte>, i: nat)
    requires ScanFrom(bytes, i).Ok? || ScanFrom(bytes, i).Stuck?
    ensures ScanFrom(bytes + rest, i) == ScanFrom(bytes, i)
    decreases |bytes| - i
  {
    var b := bytes + rest;
    assert forall k :: 0 <= k < |bytes| ==> b[k] == bytes[k];
    if bytes[i] == 0xFF && bytes[i + 1] != 0xC0 {
      ScanFromIgnoresSuffix(bytes, rest, NextCursor(bytes, i));
    }
  }

  /** Whole-buffer form of `ScanFromIgnoresSuffix`. */
  lemma DecidedPrefixIgnoresSuffix(bytes: seq<Byte>, rest: seq<Byte>)
    requires FromBytes(bytes).Ok? || FromBytes(bytes).Stuck?
    ensures FromBytes(bytes + rest) == FromBytes(bytes)
  {
    ScanFromIgnoresSuffix(bytes, rest, 2);
  }
}
