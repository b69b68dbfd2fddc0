/** uart_recv_tsk as a whole: from the bytes on the line to the steps of the send side. */
module ReceiveTask {
  import opened Bytes
  import opened Sequences
  import opened Frame
  import opened Receiver
  import opened LinkModel
  import opened Runs
  import opened Link
  import opened Requests

  /** What a callback may leave in the data field. */
  type Reply = s: seq<byte> | |s| <= 128

  /** What a delivered frame does to the send side: the steps it asks for, if they may be taken. */
  function React(t: State, f: seq<byte>, table: seq<Command>): Option<State> {
    if !Complete(f) then None
    else
      match Reaction(f, table)
      case Ignore => Some(t)
      case Respond(_) => if t.free == [] then None else Then(Next(t, Produce), Enqueue(t.free[0], 0, f[4]))
      case Acknowledge(sn) => Next(t, Ack(sn))
  }

  function Reactions(t: State, frames: seq<seq<byte>>, table: seq<Command>): Option<State> {
    if frames == [] then Some(t)
    else
      match Reactions(t, frames[..|frames| - 1], table)
      case None => None
      case Some(u) => React(u, frames[|frames| - 1], table)
  }

  lemma ReactionsStep(t: State, frames: seq<seq<byte>>, f: seq<byte>, table: seq<Command>)
    ensures Reactions(t, frames + [f], table) ==
              match Reactions(t, frames, table) case None => None case Some(u) => React(u, f, table)
  {
    assert (frames + [f])[..|frames|] == frames;
  }

  /** If a longer stream may be reacted to, so may any beginning of it. */
  lemma {:induction false} ReactionsPrefix(t: State, frames: seq<seq<byte>>, more: seq<seq<byte>>, table: seq<Command>)
    requires Reactions(t, frames + more, table).Some?
    ensures Reactions(t, frames, table).Some?
    decreases |more|
  {
    hide React;
    if more == [] {
      assert frames + more == frames;
    } else {
      var n := |more| - 1;
      assert frames + more == (frames + more[..n]) + [more[n]];
      ReactionsStep(t, frames + more[..n], more[n], table);
      ReactionsPrefix(t, frames, more[..n], table);
    }
  }

  /** A reaction is a run of at most two steps, and keeps the invariant. */
  lemma ReactionRuns(t: State, f: seq<byte>, table: seq<Command>)
    requires Inv(t) && React(t, f, table).Some?
    ensures Inv(React(t, f, table).value)
    ensures exists steps :: Exec(t, steps) == React(t, f, table)
    ensures Complete(f) && var r := Reaction(f, table);
            (r.Ignore? ==> React(t, f, table) == Some(t)) &&
            (r.Respond? ==>
              t.free != [] && t.cursor == None && Sized(t) && t.free[0] < |t.poll| &&
              React(t, f, table) == Some(Queued(t, 0, f[4]))) &&
            (r.Acknowledge? ==> Sized(t) && React(t, f, table) == Some(Acknowledged(t, r.sn)))
  {
    hide Inv, AckAt, FirstWith, Sum, Lookup;
    InvSized(t);
    var r := Reaction(f, table);
    if r.Ignore? {
      assert Exec(t, []) == Some(t);
    } else if r.Respond? {
      var e := Enqueue(t.free[0], 0, f[4]);
      NextKeepsInv(t, Produce);
      NextKeepsInv(Next(t, Produce).value, e);
      ExecStep(t, [], Produce);
      ExecStep(t, [] + [Produce], e);
    } else {
      NextKeepsInv(t, Ack(r.sn));
      ExecStep(t, [], Ack(r.sn));
    }
  }

  /** So all reactions to a stream of frames together are a run. */
  lemma {:induction false} ReactionsRun(t: State, frames: seq<seq<byte>>, table: seq<Command>)
    requires Inv(t) && Reactions(t, frames, table).Some?
    ensures Inv(Reactions(t, frames, table).value)
    ensures exists steps :: Exec(t, steps) == Reactions(t, frames, table)
  {
    hide Inv, React;
    if frames == [] {
      assert Exec(t, []) == Some(t);
    } else {
      var n := |frames| - 1;
      ReactionsRun(t, frames[..n], table);
      var u := Reactions(t, frames[..n], table).value;
      ReactionRuns(u, frames[n], table);
      var a :| Exec(t, a) == Some(u);
      var b :| Exec(u, b) == React(u, frames[n], table);
      ExecJoin(t, a, b);
    }
  }

  lemma {:induction false} ExecJoin(s: State, a: seq<Step>, b: seq<Step>)
    requires Exec(s, a).Some?
    ensures Exec(s, a + b) == Exec(Exec(s, a).value, b)
  {
    hide Next;
    if b == [] {
      assert a + b == a;
    } else {
      var n := |b| - 1;
      assert a + b == (a + b[..n]) + [b[n]] && b == b[..n] + [b[n]];
      ExecJoin(s, a, b[..n]);
      ExecStep(s, a + b[..n], b[n]);
    }
  }

  /** One turn: reads up to a delivered frame, and uart_protocol_parse on it. */
  method RecvTurn(uart: Uart, sys: System, input: seq<Option<byte>>, table: seq<Command>, reply: seq<byte> -> Reply)
    returns (used: nat, ghost frames: seq<seq<byte>>)
    requires uart.Valid() && sys.Valid() && Inv(sys.s) && uart.recvBuf !in sys.Commands() && input != []
    requires Reactions(sys.s, Feed(uart.Got(), input).frames, table).Some?
    modifies uart, uart.recvBuf, sys`s, sys.FreeHeads(), sys.SendHeads(), sys.Memories(), sys.Commands()
    ensures uart.Valid() && sys.Valid() && Inv(sys.s)
    ensures 0 < used <= |input| && Feed(old(uart.Got()), input[..used]) == Decoded(frames, uart.Got())
    ensures Some(sys.s) == Reactions(old(sys.s), frames, table)
  {
    hide Inv, Feed, React, Reaction, System.FreeHeads, System.SendHeads, System.Memories, System.Commands;
    hide System.Layout;
    hide System.Tied;
    Distinct(uart, sys);
    ghost var got, t := uart.Got(), sys.s;
    var ok; ghost var frame;
    ok, used, frame := uart.GetData(input);
    frames := if ok then [frame] else [];
    FeedSplit(got, input[..used], input[used..]);
    assert input[..used] + input[used..] == input;
    ReactionsPrefix(t, frames, Feed(uart.Got(), input[used..]).frames, table);
    OneReaction(t, frame, table);
    if ok {
      ReactionRuns(t, frame, table);
      var r := reply(uart.recvBuf[..Word(uart.recvBuf[1], uart.recvBuf[2]) + 4]);
      sys.Parse(uart.recvBuf, frame, table, r);
    }
  }

  lemma OneReaction(t: State, f: seq<byte>, table: seq<Command>)
    ensures Reactions(t, [], table) == Some(t) && Reactions(t, [f], table) == React(t, f, table)
  {
    ReactionsStep(t, [], f, table);
    assert [] + [f] == [f];
  }

  /** The receiver is no part of the send side. */
  lemma Distinct(uart: Uart, sys: System)
    requires uart.recvBuf !in sys.Commands() && sys.Layout()
    ensures {uart} !! sys.FreeHeads() && {uart} !! sys.SendHeads() && {uart} !! sys.Memories() &&
            {uart} !! sys.Commands()
    ensures {uart.recvBuf} !! sys.FreeHeads() && {uart.recvBuf} !! sys.SendHeads() && {uart.recvBuf} !! sys.Memories()
    ensures forall x :: x in sys.FreeHeads() ==> allocated(x)
    ensures forall x :: x in sys.SendHeads() ==> allocated(x)
    ensures forall x :: x in sys.Memories() ==> allocated(x)
    ensures forall x :: x in sys.Commands() ==> allocated(x)
  {
    sys.Territories();
  }

  /**
   * uart_recv_tsk on any bytes, failed reads included: the send side takes, in order, the steps
   * that the frames found in the stream ask for.
   */
  method RecvTask(uart: Uart, sys: System, input: seq<Option<byte>>, table: seq<Command>, reply: seq<byte> -> Reply)
    requires uart.Valid() && sys.Valid() && Inv(sys.s) && uart.recvBuf !in sys.Commands()
    requires Reactions(sys.s, Feed(uart.Got(), input).frames, table).Some?
    modifies uart, uart.recvBuf, sys`s, sys.FreeHeads(), sys.SendHeads(), sys.Memories(), sys.Commands()
    ensures uart.Valid() && sys.Valid() && Inv(sys.s)
    ensures var d := Feed(old(uart.Got()), input);
            uart.Got() == d.rest && Some(sys.s) == Reactions(old(sys.s), d.frames, table)
  {
    hide Inv, Feed, React, System.FreeHeads, System.SendHeads, System.Memories, System.Commands, System.Layout;
    hide System.Tied;
    var k := 0;
    ghost var done: seq<seq<byte>> := [];
    NothingFed(uart.Got());
    assert input[..0] == [];
    while k < |input|
      invariant uart.Valid() && sys.Valid() && Inv(sys.s) && k <= |input|
      invariant Feed(old(uart.Got()), input[..k]) == Decoded(done, uart.Got())
      invariant Some(sys.s) == Reactions(old(sys.s), done, table)
    {
      ghost var before, later := input[..k], input[k..];
      FeedSplit(old(uart.Got()), before, later);
      assert before + later == input;
      ReactionsJoin(old(sys.s), done, Feed(uart.Got(), later).frames, table);
      var used; ghost var frames;
      used, frames := RecvTurn(uart, sys, input[k..], table, reply);
      FeedSplit(old(uart.Got()), before, later[..used]);
      assert input[..k + used] == before + later[..used];
      ReactionsJoin(old(sys.s), done, frames, table);
      done := done + frames;
      k := k + used;
    }
    assert input[..k] == input;
  }

  lemma {:induction false} ReactionsJoin(t: State, a: seq<seq<byte>>, b: seq<seq<byte>>, table: seq<Command>)
    requires Reactions(t, a, table).Some?
    ensures Reactions(t, a + b, table) == Reactions(Reactions(t, a, table).value, b, table)
  {
    hide React;
    if b == [] {
      assert a + b == a;
    } else {
      var n := |b| - 1;
      assert a + b == (a + b[..n]) + [b[n]] && b == b[..n] + [b[n]];
      ReactionsJoin(t, a, b[..n], table);
      ReactionsStep(t, a + b[..n], b[n], table);
    }
  }

  // ----- what a message brings about

  /** Row k is the first one for this command. */
  predicate IsFirstRow(table: seq<Command>, k: nat, cmdId: byte) {
    k < |table| && table[k].cmdword == cmdId && forall i :: 0 <= i < k ==> table[i].cmdword != cmdId
  }

  /** The command byte of a message decides, by the first row for it. */
  lemma MessageReaction(t: State, m: Message, table: seq<Command>)
    requires |m.payload| <= 124
    ensures var f := Incoming(m); Fits(f) && Accepted(f)
    ensures (forall i :: 0 <= i < |table| ==> table[i].cmdword != m.cmdId) ==> React(t, Incoming(m), table) == Some(t)
    ensures forall k: nat :: IsFirstRow(table, k, m.cmdId) ==>
              React(t, Incoming(m), table) ==
                if table[k].ackword == 0 then Next(t, Ack(m.sn))
                else if t.free == [] then None
                else Then(Next(t, Produce), Enqueue(t.free[0], 0, m.sn))
  {
    var f := Incoming(m);
    IncomingFits(m);
    BuiltAccepted(RECEIVED, m);
    assert f[4] == m.sn && f[6] == m.cmdId;
    hide Next, Then, Accepted, Tail;
    if forall i :: 0 <= i < |table| ==> table[i].cmdword != m.cmdId { LookupIs(table, m.cmdId, |table|); }
    forall k: nat | IsFirstRow(table, k, m.cmdId) ensures Lookup(table, m.cmdId) == Some(table[k]) {
      LookupIs(table, m.cmdId, k);
    }
  }

  /**
   * uart_protocol_parse on a received message: a command that is not in the table changes
   * nothing; one with an ackword is answered under the number and the product type of the
   * message; any other flags the first entry of the send list that has its number.
   */
  method ParseMessage(sys: System, request: array<byte>, ghost m: Message, table: seq<Command>, reply: Reply,
                      ghost k: nat)
    requires sys.Valid() && Inv(sys.s) && request.Length == SIZE && request !in sys.Commands()
    requires |m.payload| <= 124 && |Incoming(m)| <= SIZE && request[..|Incoming(m)|] == Incoming(m)
    requires k <= |table| && forall i :: 0 <= i < k ==> table[i].cmdword != m.cmdId
    requires k < |table| ==> table[k].cmdword == m.cmdId
    requires k < |table| && table[k].ackword != 0 ==> sys.s.free != [] && sys.s.cursor == None
    modifies sys`s, sys.FreeHeads(), sys.SendHeads(), sys.Memories(), sys.Commands()
    ensures sys.Valid()
    ensures k == |table| ==> sys.s == old(sys.s) && unchanged(sys.Commands())
    ensures k < |table| && table[k].ackword != 0 ==>
              var id := old(sys.s).free[0];
              id < |sys.pool| && sys.s == Queued(old(sys.s), 0, m.sn) &&
              sys.Holds(id, Message(m.sn, m.pdtType, table[k].ackword, reply)) &&
              unchanged(sys.Commands() - {sys.pool[id].memory.cmd})
    ensures k < |table| && table[k].ackword == 0 ==>
              sys.s == Acknowledged(old(sys.s), m.sn) && unchanged(sys.Commands())
  {
    ghost var f := Incoming(m);
    BuiltAccepted(RECEIVED, m);
    LookupIs(table, m.cmdId, k);
    assert f[4] == m.sn && f[5] == m.pdtType && f[6] == m.cmdId;
    hide Inv, System.Valid, System.Holds, Accepted, Tail;
    sys.Parse(request, f, table, reply);
  }

  /** A stream that holds one message, between any noise and with any failed reads. */
  lemma OneMessage(m: Message, noise: seq<seq<byte>>, input: seq<Option<byte>>)
    requires |m.payload| <= 124 && |noise| == 2 && Noise(noise[0]) && Noise(noise[1])
    requires Received(input) == noise[0] + Incoming(m) + noise[1]
    ensures Feed([], input) == Decoded([Incoming(m)], [])
  {
    IncomingFits(m);
    assert noise[1..] == [noise[1]] && [Incoming(m)][1..] == [];
    assert Stream(noise, [Incoming(m)]) == noise[0] + Incoming(m) + Stream([noise[1]], []);
    StreamDelivered(noise, [Incoming(m)], input);
  }

  /**
   * From the line to the end of retransmission: the answer to a listed request arrives, as a
   * message whose first row has no ackword; RecvTask leads to this state; and from there on the
   * request is never written again, and is out of the list after the next complete scan.
   */
  lemma AnswerHeard(t: State, m: Message, noise: seq<seq<byte>>, input: seq<Option<byte>>, table: seq<Command>, k: nat,
                    id: Id, steps: seq<Step>)
    requires |m.payload| <= 124 && |noise| == 2 && Noise(noise[0]) && Noise(noise[1])
    requires Received(input) == noise[0] + Incoming(m) + noise[1]
    requires IsFirstRow(table, k, m.cmdId) && table[k].ackword == 0
    requires Inv(t) && Enabled(t, Ack(m.sn)) && Hits(t, Ack(m.sn), id) && t.poll[id].kind == 1 && Undisturbed(steps, id)
    ensures var a := Reactions(t, Feed([], input).frames, table);
            a.Some? &&
            (Exec(a.value, steps).Some? ==>
              var u := Exec(a.value, steps).value;
              Inv(u) && |u.poll| == |t.poll| && Count(u.wire, id) == Count(t.wire, id) && id !in u.mail &&
              (Scans(steps) > 0 ==> !IsListed(u, id)) && (!IsListed(u, id) ==> InHand(u, id) && u.poll[id] == ZERO))
  {
    OneMessage(m, noise, input);
    OneReaction(t, Incoming(m), table);
    MessageReaction(t, m, table);
    InvSized(t);
    hide Inv, Enabled, Apply, React, Reactions, Feed;
    Answered(t, m.sn, id, steps);
  }
}
