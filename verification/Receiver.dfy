/** The frame receiver: one byte at a time, with reads that may fail in between. */
module Receiver {
  import opened Bytes
  import opened Frame

  const LIMIT := 129 // UART_PROCOTOL_MAX_LEN

  /** The frames found in a stream of bytes, and the beginning of a frame that is left at its end. */
  datatype Decoded = Decoded(frames: seq<seq<byte>>, rest: seq<byte>)

  /** A stream as a whole: skip to a head; skip a header that announces too much; cut a frame off. */
  function Decode(s: seq<byte>): Decoded {
    if s == [] then Decoded([], [])
    else if s[0] != RECEIVED then Decode(s[1..])
    else if |s| < 3 then Decoded([], s)
    else if Length(s) + 1 > LIMIT then Decode(s[3..])
    else if |s| < Length(s) + 4 then Decoded([], s)
    else
      var n := Length(s) + 4;
      var d := Decode(s[n..]);
      d.(frames := [s[..n]] + d.frames)
  }

  // ----- one byte at a time

  /** What one byte does to the bytes collected so far. */
  datatype Taken = Waiting(got: seq<byte>) | Overlong | Delivered(frame: seq<byte>)

  function Take(got: seq<byte>, b: byte): Taken {
    var g := got + [b];
    if got == [] && b != RECEIVED then Waiting([])
    else if |g| == 3 && Length(g) + 1 > LIMIT then Overlong
    else if |g| > 3 && |g| >= Length(g) + 4 then Delivered(g)
    else Waiting(g)
  }

  /** The bytes collected after reading a byte. */
  function After(t: Taken): seq<byte> { if t.Waiting? then t.got else [] }

  function Output(t: Taken): seq<seq<byte>> { if t.Delivered? then [t.frame] else [] }

  /** A sequence of reads: a byte, or no data. */
  function Feed(got: seq<byte>, input: seq<Option<byte>>): Decoded
    decreases |input|
  {
    if input == [] then Decoded([], got)
    else if input[0] == None then Feed(got, input[1..])
    else
      var t := Take(got, input[0].value);
      var d := Feed(After(t), input[1..]);
      d.(frames := Output(t) + d.frames)
  }

  /** The bytes that were read. */
  function Received(input: seq<Option<byte>>): seq<byte> {
    if input == [] then []
    else if input[0] == None then Received(input[1..])
    else [input[0].value] + Received(input[1..])
  }

  /** Nothing collected, or the beginning of a frame that is not too long. */
  predicate Partial(got: seq<byte>) {
    got == [] || (got[0] == RECEIVED && (|got| >= 3 ==> Length(got) + 1 <= LIMIT && |got| < Length(got) + 4))
  }

  lemma PartialIsRest(got: seq<byte>)
    requires Partial(got)
    ensures Decode(got) == Decoded([], got)
  {
  }

  lemma TakeKeepsPartial(got: seq<byte>, b: byte)
    requires Partial(got)
    ensures Partial(After(Take(got, b)))
  {
  }

  /** One byte moves the cut between what is collected and what is still to come. */
  lemma TakeStep(got: seq<byte>, b: byte, s: seq<byte>)
    requires Partial(got)
    ensures var t := Take(got, b); var d := Decode(After(t) + s);
            Decode(got + [b] + s) == d.(frames := Output(t) + d.frames)
  {
    var g, t := got + [b], Take(got, b);
    var all := g + s;
    if t.Waiting? && t.got == [] {
      assert all[1..] == s && After(t) + s == s;
    } else if t.Overlong? {
      assert all[3..] == s && After(t) + s == s;
    } else if t.Delivered? {
      assert all[..|g|] == g && all[|g|..] == s && After(t) + s == s;
    }
  }

  /**
   * Reading byte by byte, wherever reads fail in between, finds the same frames as decoding
   * the stream as a whole, and is left with the same beginning of a frame.
   */
  lemma {:induction false} FeedIsDecode(got: seq<byte>, input: seq<Option<byte>>)
    requires Partial(got)
    ensures Feed(got, input) == Decode(got + Received(input))
    decreases |input|
  {
    hide Decode, Take, Partial;
    if input == [] {
      PartialIsRest(got);
      assert got + [] == got;
    } else if input[0] == None {
      FeedIsDecode(got, input[1..]);
    } else {
      var b, later := input[0].value, Received(input[1..]);
      var next := After(Take(got, b));
      TakeKeepsPartial(got, b);
      FeedIsDecode(next, input[1..]);
      TakeStep(got, b, later);
      assert got + ([b] + later) == got + [b] + later;
    }
  }

  // ----- streams of frames

  /** A frame that fits the receiver. */
  predicate Fits(f: seq<byte>) { Complete(f) && f[0] == RECEIVED && Length(f) + 1 <= LIMIT }

  predicate Noise(s: seq<byte>) { RECEIVED !in s }

  /** Frames with noise in front of each, and behind the last. */
  function Stream(noise: seq<seq<byte>>, frames: seq<seq<byte>>): seq<byte>
    requires |noise| == |frames| + 1
  {
    if frames == [] then noise[0] else noise[0] + frames[0] + Stream(noise[1..], frames[1..])
  }

  lemma {:induction false} SkipNoise(noise: seq<byte>, s: seq<byte>)
    requires Noise(noise)
    ensures Decode(noise + s) == Decode(s)
  {
    if noise == [] {
      assert noise + s == s;
    } else {
      SkipNoise(noise[1..], s);
      assert (noise + s)[1..] == noise[1..] + s;
    }
  }

  lemma CutFrame(f: seq<byte>, s: seq<byte>)
    requires Fits(f)
    ensures Decode(f + s) == Decode(s).(frames := [f] + Decode(s).frames)
  {
    assert (f + s)[..|f|] == f && (f + s)[|f|..] == s;
  }

  lemma {:induction false} StreamDecodes(noise: seq<seq<byte>>, frames: seq<seq<byte>>)
    requires |noise| == |frames| + 1
    requires forall i :: 0 <= i < |noise| ==> Noise(noise[i])
    requires forall i :: 0 <= i < |frames| ==> Fits(frames[i])
    ensures Decode(Stream(noise, frames)) == Decoded(frames, [])
  {
    if frames == [] {
      SkipNoise(noise[0], []);
      assert noise[0] + [] == noise[0];
    } else {
      var later := Stream(noise[1..], frames[1..]);
      StreamDecodes(noise[1..], frames[1..]);
      CutFrame(frames[0], later);
      SkipNoise(noise[0], frames[0] + later);
      assert noise[0] + frames[0] + later == noise[0] + (frames[0] + later);
      assert frames == [frames[0]] + frames[1..];
    }
  }

  /** Frames separated by noise are delivered exactly and in order, however reads that fail split the stream. */
  lemma StreamDelivered(noise: seq<seq<byte>>, frames: seq<seq<byte>>, input: seq<Option<byte>>)
    requires |noise| == |frames| + 1
    requires forall i :: 0 <= i < |noise| ==> Noise(noise[i])
    requires forall i :: 0 <= i < |frames| ==> Fits(frames[i])
    requires Received(input) == Stream(noise, frames)
    ensures Feed([], input) == Decoded(frames, [])
  {
    FeedIsDecode([], input);
    assert [] + Received(input) == Received(input);
    StreamDecodes(noise, frames);
  }

  /** The frame of a message as the other side sends it. */
  function Incoming(m: Message): seq<byte>
    requires |m.payload| <= 124
  {
    [RECEIVED] + Tail(m)
  }

  lemma IncomingFits(m: Message)
    requires |m.payload| <= 124
    ensures Fits(Incoming(m)) && Accepted(Incoming(m))
  {
    BuiltAccepted(RECEIVED, m);
  }

  /** The builder takes payloads of up to 128 bytes, but only those of up to 124 fit the receiver. */
  lemma FitsUpTo124(m: Message)
    requires |m.payload| <= 0xFFFB
    ensures Fits([RECEIVED] + Tail(m)) <==> |m.payload| <= 124
  {
    BuiltAccepted(RECEIVED, m);
  }

  /** Behind a header that announces too much the receiver is hunting again, whatever follows. */
  lemma OverlongIsDropped(got: seq<byte>, lsb: byte, s: seq<byte>)
    requires Partial(got) && |got| == 2 && Word(got[1], lsb) + 1 > LIMIT
    ensures Take(got, lsb) == Overlong && Decode(got + [lsb] + s) == Decode(s)
  {
    assert (got + [lsb] + s)[3..] == s;
  }

  /**
   * Messages built on one side are delivered on the other: one frame for each, of getresplen
   * bytes, accepted by procotol_check, with all fields recovered.
   */
  lemma MessagesDelivered(noise: seq<seq<byte>>, messages: seq<Message>, input: seq<Option<byte>>)
    requires |noise| == |messages| + 1 && forall i :: 0 <= i < |noise| ==> Noise(noise[i])
    requires forall i :: 0 <= i < |messages| ==> |messages[i].payload| <= 124
    requires Received(input) == Stream(noise, seq(|messages|, i requires 0 <= i < |messages| => Incoming(messages[i])))
    ensures var d := Feed([], input);
            d.rest == [] && |d.frames| == |messages| &&
            forall i :: 0 <= i < |messages| ==>
              var f := d.frames[i];
              Complete(f) && Accepted(f) && messages[i] == Carried(f)
  {
    var frames := seq(|messages|, i requires 0 <= i < |messages| => Incoming(messages[i]));
    forall i | 0 <= i < |messages| ensures Fits(frames[i]) { IncomingFits(messages[i]); }
    StreamDelivered(noise, frames, input);
    forall i | 0 <= i < |messages|
      ensures var f := frames[i]; Complete(f) && Accepted(f) && messages[i] == Carried(f)
    {
      BuiltAccepted(RECEIVED, messages[i]);
    }
  }

  // ----- the receive task

  class Uart {
    const recvBuf: array<byte>
    var proctolStart: bool
    var recvLen: nat
    var dataLen: nat

    ghost predicate Valid()
      reads this, recvBuf
    {
      recvBuf.Length == SIZE && recvLen < SIZE && Partial(Got()) && (proctolStart <==> recvLen > 0) &&
      (recvLen >= 3 ==> dataLen == Length(Got()) + 4 - recvLen)
    }

    /** The bytes collected so far. */
    ghost function Got(): seq<byte>
      requires recvLen <= recvBuf.Length
      reads this, recvBuf
    {
      recvBuf[..recvLen]
    }

    constructor ()
      ensures Valid() && Got() == [] && fresh(recvBuf)
    {
      recvBuf := new byte[SIZE](_ => 0);
      proctolStart, recvLen, dataLen := false, 0, 0;
    }

    /** The body of the loop of uart_get_data: `done` says that it returns. */
    method TakeByte(ch: byte) returns (done: bool, ok: bool)
      requires Valid()
      modifies this, recvBuf
      ensures Valid()
      ensures var t := Take(old(Got()), ch);
              Got() == After(t) && done == !t.Waiting? && ok == t.Delivered? &&
              (t.Delivered? ==> |t.frame| <= SIZE && Fits(t.frame) && recvBuf[..|t.frame|] == t.frame)
    {
      ghost var got := Got();
      if ch == 0xC0 && !proctolStart { proctolStart := true; }
      if !proctolStart { return false, false; }
      recvBuf[recvLen] := ch;
      recvLen := recvLen + 1;
      assert recvBuf[..recvLen] == got + [ch];
      if recvLen == 3 {
        dataLen := Word(recvBuf[1], recvBuf[2]) + 1;
        if dataLen > LIMIT {
          recvLen, dataLen, proctolStart := 0, 0, false;
          return true, false;
        }
      } else if recvLen > 3 {
        dataLen := dataLen - 1;
        if dataLen == 0 {
          recvLen, proctolStart := 0, false;
          return true, true;
        }
      }
      return false, false;
    }

    /**
     * uart_get_data on the reads to come: it consumes `used` of them, up to a failed read, an
     * overlong header or a delivered frame, which is then at the front of the buffer.
     */
    method GetData(input: seq<Option<byte>>) returns (ok: bool, used: nat, ghost frame: seq<byte>)
      requires Valid()
      modifies this, recvBuf
      ensures Valid() && used <= |input| && (input != [] ==> used > 0)
      ensures Feed(old(Got()), input[..used]) == Decoded(if ok then [frame] else [], Got())
      ensures ok ==> Fits(frame) && |frame| <= SIZE && recvBuf[..|frame|] == frame
    {
      used, frame := 0, [];
      while used < |input|
        invariant Valid() && used <= |input|
        invariant Feed(old(Got()), input[..used]) == Decoded([], Got())
      {
        var r := input[used];
        ghost var before, got := input[..used], Got();
        used := used + 1;
        assert input[..used] == before + [r];
        FeedOne(old(Got()), before, r);
        if r == None { return false, used, []; }
        var done;
        done, ok := TakeByte(r.value);
        if done {
          frame := if ok then Take(got, r.value).frame else [];
          return;
        }
      }
      ok := false;
    }
  }

  lemma NothingFed(got: seq<byte>)
    ensures Feed(got, []) == Decoded([], got)
  {
  }

  /** Reads may be split anywhere. */
  lemma {:induction false} FeedSplit(got: seq<byte>, a: seq<Option<byte>>, b: seq<Option<byte>>)
    ensures var d := Feed(got, a); var e := Feed(d.rest, b);
            Feed(got, a + b) == Decoded(d.frames + e.frames, e.rest)
    decreases |a|
  {
    hide Take, After, Output;
    if a == [] {
      assert a + b == b;
    } else {
      assert (a + b)[1..] == a[1..] + b;
      FeedSplit(if a[0] == None then got else After(Take(got, a[0].value)), a[1..], b);
    }
  }

  lemma FeedOne(got: seq<byte>, a: seq<Option<byte>>, r: Option<byte>)
    ensures var d := Feed(got, a);
            Feed(got, a + [r]) ==
              if r == None then d
              else Decoded(d.frames + Output(Take(d.rest, r.value)), After(Take(d.rest, r.value)))
  {
    hide Take, After, Output;
    FeedSplit(got, a, [r]);
    assert [r][1..] == [];
  }
}
