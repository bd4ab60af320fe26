/**
 The two C string routines the receive loop relies on, over a byte buffer:
 `strchr(buf, '\n')` and `strlen(buf)`.  Both walk the buffer until they meet
 a stop byte; in C a buffer holding no stop byte makes them read past its end,
 which this model reports explicitly instead of leaving undefined.
 */
module CString {
  import opened Wrappers

  /** One `char` of the receive buffer. */
  newtype byte = x: int | 0 <= x < 256

  const NUL: byte := 0
  const NEWLINE: byte := 10
  const DOLLAR: byte := 36

  /** No byte of `buf[lo..hi]` would stop a search for a newline. */
  ghost predicate Plain(buf: seq<byte>, lo: int, hi: int)
    requires 0 <= lo <= hi <= |buf|
  {
    forall j :: lo <= j < hi ==> buf[j] != NEWLINE && buf[j] != NUL
  }

  /** No byte of `buf[lo..hi]` is the string terminator. */
  ghost predicate NulFree(buf: seq<byte>, lo: int, hi: int)
    requires 0 <= lo <= hi <= |buf|
  {
    forall j :: lo <= j < hi ==> buf[j] != NUL
  }

  /** Where a search for a newline stops. */
  datatype Scan =
    | Newline(at: nat)     // the first newline, before any NUL
    | Terminator(at: nat)  // a NUL came first: strchr returns NULL
    | RunsOff              // neither occurs inside the buffer

  /** `strchr(buf + k, '\n')`, walking one byte at a time. */
  function ScanFrom(buf: seq<byte>, k: nat): (r: Scan)
    requires k <= |buf|
    ensures r.Newline? ==> k <= r.at < |buf| && buf[r.at] == NEWLINE && Plain(buf, k, r.at)
    ensures r.Terminator? ==> k <= r.at < |buf| && buf[r.at] == NUL && Plain(buf, k, r.at)
    ensures r.RunsOff? <==> Plain(buf, k, |buf|)
    decreases |buf| - k
  {
    if k == |buf| then RunsOff
    else if buf[k] == NEWLINE then Newline(k)
    else if buf[k] == NUL then Terminator(k)
    else ScanFrom(buf, k + 1)
  }

  /** `strchr(buf, '\n')`. */
  function Strchr(buf: seq<byte>): Scan
  {
    ScanFrom(buf, 0)
  }

  /** The search reports a newline at `i` exactly when `i` holds the first
      newline and nothing before it ends the string. */
  lemma StrchrFindsFirstNewline(buf: seq<byte>, i: nat)
    ensures Strchr(buf) == Newline(i) <==> i < |buf| && buf[i] == NEWLINE && Plain(buf, 0, i)
  {
  }

  /** The index of the first NUL at or after `k`: `strlen(buf + k) + k`. */
  function NulFrom(buf: seq<byte>, k: nat): (r: Option<nat>)
    requires k <= |buf|
    ensures r.Some? ==> k <= r.value < |buf| && buf[r.value] == NUL && NulFree(buf, k, r.value)
    ensures r.None? <==> NulFree(buf, k, |buf|)
    decreases |buf| - k
  {
    if k == |buf| then None
    else if buf[k] == NUL then Some(k)
    else NulFrom(buf, k + 1)
  }

  /** `strlen(buf)`, or None when the buffer holds no terminator. */
  function Strlen(buf: seq<byte>): Option<nat>
  {
    NulFrom(buf, 0)
  }

  /** A terminator placed right after a NUL-free prefix fixes the length. */
  lemma StrlenOfTerminated(buf: seq<byte>, n: nat)
    requires n < |buf| && buf[n] == NUL && NulFree(buf, 0, n)
    ensures Strlen(buf) == Some(n)
  {
  }
}
