/**
 The receive loop: one pass recovers a frame from one read and, when there is
 one, hands it to the parser and dispatches the result.  A pass that finds no
 newline does nothing further; a frame the parser rejects produces a single
 notice.  Passes are folded over a finite sequence of reads.
 */
module ReceiveLoop {
  import opened Wrappers
  import opened CString
  import opened Nmea
  import opened Display
  import opened FrameRecovery
  import opened Dispatcher

  /** The parsing library: `nmea_parse(frame, strlen(frame), 0)`, with
      checksum checking turned off by the last argument; it returns NULL when
      it cannot decode the frame. */
  type Parser = seq<byte> -> Option<Sentence>

  /** What one pass produced: the frame, the display actions, and the buffer
      handed to the parser (the one the next pass clears). */
  datatype Pass = Pass(frame: Option<seq<byte>>, actions: seq<Action>, buffer: seq<byte>)

  /** One pass of the loop, with the read capped one byte short of the buffer. */
  function Iterate(prev: seq<byte>, data: seq<byte>, parse: Parser): (r: Pass)
    requires |prev| == BufSize && |data| <= MaxRead
    ensures |r.buffer| == BufSize
    ensures r.frame.Some? <==> exists i :: LineAt(data, i)
    ensures forall i :: LineAt(data, i) ==> r.frame == Some([DOLLAR] + data[1..i + 1])
    ensures r.frame.None? ==> r.actions == []
    ensures r.frame.Some? && parse(r.frame.value).Some? ==>
              r.actions == Present(parse(r.frame.value).value)
    ensures Print(ParseFailure) in r.actions <==> r.frame.Some? && parse(r.frame.value).None?
    ensures Print(ParseFailure) in r.actions ==> r.actions == [Print(ParseFailure)]
  {
    var frame := RecoverFrame(prev, data);
    var buffer := Leftover(prev, data);
    match frame
    case None => Pass(None, [], buffer)
    case Some(f) =>
      match parse(f)
      case None => Pass(frame, [Print(ParseFailure)], buffer)
      case Some(s) => Pass(frame, Dispatch(s), buffer)
  }

  /** Nothing the previous pass left in the buffer affects what a pass
      produces. */
  lemma IterateForgetsPrevious(prev1: seq<byte>, prev2: seq<byte>, data: seq<byte>, parse: Parser)
    requires |prev1| == BufSize && |prev2| == BufSize && |data| <= MaxRead
    ensures Iterate(prev1, data, parse).frame == Iterate(prev2, data, parse).frame
    ensures Iterate(prev1, data, parse).actions == Iterate(prev2, data, parse).actions
  {
    RecoverForgetsPrevious(prev1, prev2, data);
  }

  /** Every read fits the capped read length. */
  ghost predicate Capped(chunks: seq<seq<byte>>)
  {
    forall k :: 0 <= k < |chunks| ==> |chunks[k]| <= MaxRead
  }

  /** The loop over a finite sequence of reads: the actions of each pass, in
      order, each pass starting from the buffer the previous one left.  Every
      action shown comes from the pass of one of the reads. */
  function Run(prev: seq<byte>, chunks: seq<seq<byte>>, parse: Parser): (r: seq<Action>)
    requires |prev| == BufSize && Capped(chunks)
    ensures forall x :: x in r ==>
              exists k :: 0 <= k < |chunks| && x in Iterate(prev, chunks[k], parse).actions
    decreases |chunks|
  {
    if chunks == [] then []
    else
      var p := Iterate(prev, chunks[0], parse);
      var rest := Run(p.buffer, chunks[1..], parse);
      PassesForgetPrevious(p.buffer, prev, chunks[1..], parse);
      assert forall k :: 0 <= k < |chunks[1..]| ==> chunks[1..][k] == chunks[k + 1];
      p.actions + rest
  }

  /** Each pass of a batch produces the same actions whatever buffer it
      starts from. */
  lemma PassesForgetPrevious(prev1: seq<byte>, prev2: seq<byte>, chunks: seq<seq<byte>>, parse: Parser)
    requires |prev1| == BufSize && |prev2| == BufSize && Capped(chunks)
    ensures forall k :: 0 <= k < |chunks| ==>
              Iterate(prev1, chunks[k], parse).actions == Iterate(prev2, chunks[k], parse).actions
  {
    forall k | 0 <= k < |chunks|
      ensures Iterate(prev1, chunks[k], parse).actions == Iterate(prev2, chunks[k], parse).actions
    {
      IterateForgetsPrevious(prev1, prev2, chunks[k], parse);
    }
  }

  /** The loop's output does not depend on the buffer it starts with. */
  lemma {:induction false} RunForgetsBuffer(prev1: seq<byte>, prev2: seq<byte>, chunks: seq<seq<byte>>, parse: Parser)
    requires |prev1| == BufSize && |prev2| == BufSize && Capped(chunks)
    ensures Run(prev1, chunks, parse) == Run(prev2, chunks, parse)
    decreases |chunks|
  {
    if chunks != [] {
      IterateForgetsPrevious(prev1, prev2, chunks[0], parse);
      RunForgetsBuffer(Iterate(prev1, chunks[0], parse).buffer, Iterate(prev2, chunks[0], parse).buffer, chunks[1..], parse);
    }
  }

  /** Running over two batches of chunks is running over each in turn: no
      pass, failed or not, changes how the later ones behave. */
  lemma {:induction false} RunAppend(prev: seq<byte>, mid: seq<byte>, a: seq<seq<byte>>, b: seq<seq<byte>>, parse: Parser)
    requires |prev| == BufSize && |mid| == BufSize && Capped(a) && Capped(b)
    ensures Capped(a + b)
    ensures Run(prev, a + b, parse) == Run(prev, a, parse) + Run(mid, b, parse)
    decreases |a|
  {
    CappedAppend(a, b);
    if a == [] {
      assert a + b == b;
      RunForgetsBuffer(prev, mid, b, parse);
    } else {
      var p := Iterate(prev, a[0], parse);
      RunAppend(p.buffer, mid, a[1..], b, parse);
      SplitHead(a, b);
      assert Run(prev, a + b, parse) == p.actions + Run(p.buffer, a[1..] + b, parse);
    }
  }

  /** A frame the parser rejects costs exactly one notice, and the loop
      carries on with the next read as if nothing had happened. */
  lemma ParseFailureIsContained(prev: seq<byte>, data: seq<byte>, rest: seq<seq<byte>>, parse: Parser, i: nat)
    requires |prev| == BufSize && |data| <= MaxRead && Capped(rest)
    requires LineAt(data, i) && parse([DOLLAR] + data[1..i + 1]).None?
    ensures Capped([data] + rest)
    ensures Run(prev, [data] + rest, parse) == [Print(ParseFailure)] + Run(prev, rest, parse)
  {
    RunCons(prev, data, rest, parse);
    var p := Iterate(prev, data, parse);
    assert p.frame == Some([DOLLAR] + data[1..i + 1]);
    assert p.actions == [Print(ParseFailure)];
    RunForgetsBuffer(p.buffer, prev, rest, parse);
  }

  /** A read without a line produces nothing and leaves the rest of the run
      as it would have been. */
  lemma IncompleteReadIsSilent(prev: seq<byte>, data: seq<byte>, rest: seq<seq<byte>>, parse: Parser)
    requires |prev| == BufSize && |data| <= MaxRead && Capped(rest)
    requires forall i :: !LineAt(data, i)
    ensures Capped([data] + rest)
    ensures Run(prev, [data] + rest, parse) == Run(prev, rest, parse)
  {
    RunCons(prev, data, rest, parse);
    var p := Iterate(prev, data, parse);
    assert p.frame.None?;
    RunForgetsBuffer(p.buffer, prev, rest, parse);
  }

  /** A run over one more read is that read's pass followed by the rest,
      started from the buffer the pass leaves. */
  lemma RunCons(prev: seq<byte>, data: seq<byte>, rest: seq<seq<byte>>, parse: Parser)
    requires |prev| == BufSize && |data| <= MaxRead && Capped(rest)
    ensures Capped([data] + rest)
    ensures Run(prev, [data] + rest, parse)
         == Iterate(prev, data, parse).actions + Run(Iterate(prev, data, parse).buffer, rest, parse)
  {
    CappedCons(data, rest);
    var chunks := [data] + rest;
    assert chunks[0] == data && chunks[1..] == rest;
  }

  /** Prepending one capped read keeps a run capped. */
  lemma CappedCons(data: seq<byte>, rest: seq<seq<byte>>)
    requires |data| <= MaxRead && Capped(rest)
    ensures Capped([data] + rest)
  {
    var chunks := [data] + rest;
    forall k | 0 <= k < |chunks|
      ensures |chunks[k]| <= MaxRead
    {
      if k > 0 { assert chunks[k] == rest[k - 1]; }
    }
  }

  /** Joining two capped batches keeps them capped. */
  lemma CappedAppend(a: seq<seq<byte>>, b: seq<seq<byte>>)
    requires Capped(a) && Capped(b)
    ensures Capped(a + b)
  {
    forall k | 0 <= k < |a + b|
      ensures |(a + b)[k]| <= MaxRead
    {
      if k < |a| { assert (a + b)[k] == a[k]; } else { assert (a + b)[k] == b[k - |a|]; }
    }
  }

  /** The first read of a joined batch, and the reads after it. */
  lemma SplitHead(a: seq<seq<byte>>, b: seq<seq<byte>>)
    requires a != []
    ensures (a + b)[0] == a[0] && (a + b)[1..] == a[1..] + b
  {
  }
}
