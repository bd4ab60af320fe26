/**
 Frame recovery: the first half of one pass of the receive loop.  The 256-byte
 buffer is zeroed, one read writes a prefix of it, byte 0 is forced to `$`,
 and the first newline (searched with C string semantics) is followed by a
 NUL, leaving a `$ ... \n` frame that the parser receives as
 `(buf, strlen(buf))`.
 */
module FrameRecovery {
  import opened Wrappers
  import opened CString

  /** `char buf[256]`. */
  const BufSize: nat := 256

  /** The longest read the terminator write and the scan can survive. */
  const MaxRead: nat := BufSize - 1

  /** What the recovery stage hands on. */
  datatype Recovery =
    | Framed(frame: seq<byte>)  // a complete `$ ... \n` frame
    | Incomplete                // no newline before the string ends: skip this pass
    | Undefined                 // the C code reads or writes outside `buf`

  /** A frame as the parser receives it: `$`, then bytes that neither end
      the line nor the string, then exactly one newline as the last byte. */
  ghost predicate WellFormed(f: seq<byte>)
  {
    && |f| >= 2
    && f[0] == DOLLAR
    && f[|f| - 1] == NEWLINE
    && forall j :: 0 <= j < |f| - 1 ==> f[j] != NEWLINE && f[j] != NUL
  }

  /** The read bytes `data` hold, at index `i`, the first newline that comes
      before any NUL, not counting byte 0 (which sentinel repair overwrites). */
  ghost predicate LineAt(data: seq<byte>, i: int)
  {
    && 1 <= i < |data|
    && data[i] == NEWLINE
    && forall j :: 1 <= j < i ==> data[j] != NEWLINE && data[j] != NUL
  }

  /** `memset(buf, 0, sizeof(buf))`: whatever the previous pass left is gone. */
  function Cleared(prev: seq<byte>): (r: seq<byte>)
    requires |prev| == BufSize
    ensures |r| == BufSize
    ensures forall i :: 0 <= i < BufSize ==> r[i] == NUL
  {
    seq(BufSize, _ => NUL)
  }

  /** `read(fd, buf, n)` returning the bytes `data`: a prefix is overwritten,
      the rest of the buffer is left as it was. */
  function Fill(buf: seq<byte>, data: seq<byte>): (r: seq<byte>)
    requires |buf| == BufSize && |data| <= BufSize
    ensures |r| == BufSize
    ensures forall i :: 0 <= i < |data| ==> r[i] == data[i]
    ensures forall i :: |data| <= i < BufSize ==> r[i] == buf[i]
  {
    data + buf[|data|..]
  }

  /** The buffer after clearing and reading. */
  function Receive(prev: seq<byte>, data: seq<byte>): (r: seq<byte>)
    requires |prev| == BufSize && |data| <= BufSize
    ensures |r| == BufSize
    ensures forall i :: 0 <= i < |data| ==> r[i] == data[i]
    ensures forall i :: |data| <= i < BufSize ==> r[i] == NUL
  {
    Fill(Cleared(prev), data)
  }

  /** Sentinel repair: a first byte other than `$` is overwritten with `$`;
      nothing is shifted. */
  function Repair(buf: seq<byte>): (r: seq<byte>)
    requires |buf| >= 1
    ensures |r| == |buf|
    ensures r[0] == DOLLAR
    ensures forall i :: 1 <= i < |buf| ==> r[i] == buf[i]
  {
    if buf[0] != DOLLAR then buf[0 := DOLLAR] else buf
  }

  /** The buffer that the newline search walks. */
  function Prepared(prev: seq<byte>, data: seq<byte>): (r: seq<byte>)
    requires |prev| == BufSize && |data| <= BufSize
    ensures |r| == BufSize && r[0] == DOLLAR
    ensures forall i :: 1 <= i < |data| ==> r[i] == data[i]
    ensures forall i :: |data| <= i < BufSize && i != 0 ==> r[i] == NUL
  {
    Repair(Receive(prev, data))
  }

  /** Newline search and truncation on a prepared buffer: `strchr`, then a
      NUL one past the newline, then `strlen` to size the frame.  A frame is
      produced exactly when the search finds a newline and the terminator
      fits; it is the buffer up to and including that newline. */
  function Delimit(buf: seq<byte>): (r: Recovery)
    requires |buf| == BufSize
    ensures r.Framed? <==> Strchr(buf).Newline? && Strchr(buf).at + 1 < BufSize
    ensures r.Framed? ==> r.frame == buf[..Strchr(buf).at + 1]
    ensures r.Incomplete? <==> Strchr(buf).Terminator?
  {
    match Strchr(buf)
    case RunsOff => Undefined
    case Terminator(_) => Incomplete
    case Newline(i) =>
      if i + 1 < BufSize then
        var t := buf[i + 1 := NUL];
        assert NulFree(t, 0, i + 1);
        StrlenOfTerminated(t, i + 1);
        assert t[..i + 1] == buf[..i + 1];
        match Strlen(t)
        case Some(n) => Framed(t[..n])
        case None => assert false; Undefined
      else
        Undefined
  }

  /** One recovery pass exactly as the loop is written: the read may return
      as many bytes as the buffer holds. */
  function Recover(prev: seq<byte>, data: seq<byte>): (r: Recovery)
    requires |prev| == BufSize && |data| <= BufSize
    ensures r.Framed? ==> WellFormed(r.frame)
    ensures r.Framed? ==> |r.frame| <= |data| && forall j :: 1 <= j < |r.frame| ==> r.frame[j] == data[j]
    ensures r.Undefined? ==> |data| == BufSize
  {
    var buf := Prepared(prev, data);
    RunsOffIffFullAndPlain(prev, data);
    match Strchr(buf)
    case Newline(i) =>
      FramedIsPrefix(buf, i);
      NewlineIffLine(prev, data, i);
      Delimit(buf)
    case _ => Delimit(buf)
  }

  /** When the search finds a newline at `i` and the terminator fits, the
      frame is the buffer's first `i + 1` bytes. */
  lemma FramedIsPrefix(buf: seq<byte>, i: nat)
    requires |buf| == BufSize && buf[0] == DOLLAR
    requires Strchr(buf) == Newline(i)
    ensures i + 1 < BufSize ==> Delimit(buf) == Framed(buf[..i + 1])
    ensures i + 1 < BufSize ==> WellFormed(buf[..i + 1])
    ensures i + 1 >= BufSize ==> Delimit(buf) == Undefined
  {
  }

  /** The search on the prepared buffer finds a newline at `i` exactly when
      the read bytes hold a line ending at `i`. */
  lemma NewlineIffLine(prev: seq<byte>, data: seq<byte>, i: nat)
    requires |prev| == BufSize && |data| <= BufSize
    ensures Strchr(Prepared(prev, data)) == Newline(i) <==> LineAt(data, i)
  {
    var buf := Prepared(prev, data);
    StrchrFindsFirstNewline(buf, i);
    if LineAt(data, i) {
      assert buf[i] == NEWLINE;
      assert Plain(buf, 0, i);
    }
    if Strchr(buf) == Newline(i) {
      assert i != 0;
      assert forall j :: 1 <= j < i ==> buf[j] == data[j];
    }
  }

  /** The search runs off the end of the buffer exactly when a full read
      holds neither a newline nor a NUL after byte 0. */
  lemma RunsOffIffFullAndPlain(prev: seq<byte>, data: seq<byte>)
    requires |prev| == BufSize && |data| <= BufSize
    ensures Strchr(Prepared(prev, data)).RunsOff? <==> |data| == BufSize && Plain(data, 1, BufSize)
  {
    var buf := Prepared(prev, data);
    if |data| < BufSize {
      var z := if |data| == 0 then 1 else |data|;
      assert buf[z] == NUL;
    } else if Plain(data, 1, BufSize) {
      assert forall j :: 1 <= j < BufSize ==> buf[j] == data[j];
      assert Plain(buf, 0, BufSize);
    } else {
      var j :| 1 <= j < BufSize && (data[j] == NEWLINE || data[j] == NUL);
      assert buf[j] == data[j];
    }
  }

  /** Every outcome of the pass as written, in terms of the read bytes alone:
      a line ending at `i` yields the repaired prefix up to and including it,
      provided the terminator fits; the code leaves the buffer exactly when
      a full read holds neither a newline nor a NUL in bytes 1..255, or its
      first line ends in its last byte. */
  lemma RecoverCharacterized(prev: seq<byte>, data: seq<byte>)
    requires |prev| == BufSize && |data| <= BufSize
    ensures forall i :: LineAt(data, i) && i + 1 < BufSize ==>
              Recover(prev, data) == Framed([DOLLAR] + data[1..i + 1])
    ensures Recover(prev, data).Incomplete? <==>
              (forall i :: !LineAt(data, i)) && !(|data| == BufSize && Plain(data, 1, BufSize))
    ensures Recover(prev, data).Undefined? <==>
              |data| == BufSize && (Plain(data, 1, BufSize) || LineAt(data, BufSize - 1))
  {
    var buf := Prepared(prev, data);
    RunsOffIffFullAndPlain(prev, data);
    LinesMatchScan(prev, data);
    match Strchr(buf)
    case Newline(i) =>
      FramedIsPrefix(buf, i);
      assert LineAt(data, i);
      if i + 1 < BufSize {
        assert buf[..i + 1] == [DOLLAR] + data[1..i + 1];
      }
      forall k | LineAt(data, k)
        ensures k == i
      {
        LinesAreUnique(data, i, k);
      }
    case Terminator(_) =>
    case RunsOff =>
  }

  /** A read holds at most one first line. */
  lemma LinesAreUnique(data: seq<byte>, i: int, k: int)
    requires LineAt(data, i) && LineAt(data, k)
    ensures i == k
  {
  }

  /** Recovery with the read capped one byte short of the buffer, as in
      `read(fd, buf, sizeof(buf) - 1)`: a NUL always follows the read bytes,
      so the search stops inside the buffer and the terminator fits. */
  function RecoverFrame(prev: seq<byte>, data: seq<byte>): (r: Option<seq<byte>>)
    requires |prev| == BufSize && |data| <= MaxRead
    ensures r.Some? <==> exists i :: LineAt(data, i)
    ensures forall i :: LineAt(data, i) ==> r == Some([DOLLAR] + data[1..i + 1])
    ensures r.Some? ==> WellFormed(r.value)
  {
    RecoverCharacterized(prev, data);
    match Recover(prev, data)
    case Framed(f) => Some(f)
    case Incomplete => None
    case Undefined => assert false; None
  }

  /** With the capped read, the newline search stops at an index inside the
      buffer, and the terminator write after a newline does too. */
  lemma IndicesStayInBuffer(prev: seq<byte>, data: seq<byte>)
    requires |prev| == BufSize && |data| <= MaxRead
    ensures !Strchr(Prepared(prev, data)).RunsOff?
    ensures Strchr(Prepared(prev, data)).Newline? ==> Strchr(Prepared(prev, data)).at + 1 < BufSize
    ensures Strchr(Prepared(prev, data)).Terminator? ==> Strchr(Prepared(prev, data)).at < BufSize
  {
    RunsOffIffFullAndPlain(prev, data);
    var s := Strchr(Prepared(prev, data));
    if s.Newline? {
      NewlineIffLine(prev, data, s.at);
    }
  }

  /** The pass does not depend on what the previous pass left in the buffer
      (for instance the date string the RMC branch formats into it). */
  lemma RecoverForgetsPrevious(prev1: seq<byte>, prev2: seq<byte>, data: seq<byte>)
    requires |prev1| == BufSize && |prev2| == BufSize && |data| <= BufSize
    ensures Recover(prev1, data) == Recover(prev2, data)
  {
    assert Prepared(prev1, data) == Prepared(prev2, data);
  }

  /** As written: a full read of a sentence cut before its newline leaves no
      NUL in the buffer, so the newline search reads past its end. */
  lemma CutFullReadOverruns(prev: seq<byte>)
    requires |prev| == BufSize
    ensures Recover(prev, seq(BufSize, _ => 65 as byte)) == Undefined
  {
    var data := seq(BufSize, _ => 65 as byte);
    assert Plain(data, 1, BufSize);
    RecoverCharacterized(prev, data);
  }

  /** As written: a full read whose last byte is its first newline puts the
      terminator at `buf[256]`, one past the end. */
  lemma NewlineInLastByteOverflows(prev: seq<byte>)
    requires |prev| == BufSize
    ensures Recover(prev, seq(MaxRead, _ => 65 as byte) + [NEWLINE]) == Undefined
  {
    var data := seq(MaxRead, _ => 65 as byte) + [NEWLINE];
    assert LineAt(data, BufSize - 1);
    RecoverCharacterized(prev, data);
  }

  /** The search on the prepared buffer and the lines of the read agree at
      every index. */
  lemma LinesMatchScan(prev: seq<byte>, data: seq<byte>)
    requires |prev| == BufSize && |data| <= BufSize
    ensures forall i: nat :: Strchr(Prepared(prev, data)) == Newline(i) <==> LineAt(data, i)
  {
    forall i: nat
      ensures Strchr(Prepared(prev, data)) == Newline(i) <==> LineAt(data, i)
    {
      NewlineIffLine(prev, data, i);
    }
  }

  /** The buffer once a pass with a capped read has searched it and written
      the terminator: when the read holds a line, this is the buffer handed
      to the parser, whose C string is the frame; otherwise it is the
      prepared buffer, untouched.  (An RMC pass later formats its date into
      the buffer; the next pass clears it either way.) */
  function Leftover(prev: seq<byte>, data: seq<byte>): (r: seq<byte>)
    requires |prev| == BufSize && |data| <= MaxRead
    ensures |r| == BufSize
    ensures forall i :: LineAt(data, i) ==> r == Prepared(prev, data)[i + 1 := NUL]
    ensures (forall i :: !LineAt(data, i)) ==> r == Prepared(prev, data)
  {
    var buf := Prepared(prev, data);
    IndicesStayInBuffer(prev, data);
    LinesMatchScan(prev, data);
    match Strchr(buf)
    case Newline(i) =>
      assert LineAt(data, i);
      assert buf[..i + 1] == [DOLLAR] + data[1..i + 1];
      assert forall k :: LineAt(data, k) ==> k == i;
      buf[i + 1 := NUL]
    case _ => buf
  }
}
