/** Runs of the UART send side: sequences of enabled steps. */
module Runs {
  import opened Bytes
  import opened Sequences
  import opened LinkModel

  // ----- whole runs

  /** The state after a run: one enabled step from each state to the next. */
  function Exec(s: State, steps: seq<Step>): (t: Option<State>) {
    if steps == [] then Some(s)
    else Then(Exec(s, steps[..|steps| - 1]), steps[|steps| - 1])
  }

  function Next(s: State, step: Step): Option<State> {
    if Sized(s) && Enabled(s, step) then Some(Apply(s, step)) else None
  }

  function Then(s: Option<State>, step: Step): Option<State> {
    if s.Some? then Next(s.value, step) else None
  }

  lemma ExecStep(s: State, steps: seq<Step>, step: Step)
    ensures Exec(s, steps + [step]) == Then(Exec(s, steps), step)
  {
    hide Next;
    assert (steps + [step])[..|steps|] == steps;
  }

  ghost predicate AllSafe(poll: seq<Poll>) { forall i :: 0 <= i < |poll| ==> Safe(poll[i]) }

  ghost predicate AllZero(poll: seq<Poll>) { forall i :: 0 <= i < |poll| ==> poll[i] == ZERO }

  lemma InitialInv(poll: seq<Poll>, sn: seq<byte>, age: seq<nat>)
    requires |sn| == |poll| && |age| == |poll|
    ensures var s := Initial(poll, sn, age);
            Sized(s) && Conserved(s) && (AllSafe(poll) ==> Inv(s)) && (AllZero(poll) ==> Inv(s) && Clean(s))
  {
    var s := Initial(poll, sn, age);
    forall id: Id ensures Places(s, id) == if id < |poll| then 1 else 0 {
      if id < |poll| { assert s.free[id] == id; }
    }
  }

  lemma {:induction false} ExecKeepsInv(s: State, steps: seq<Step>)
    requires Inv(s) && Exec(s, steps).Some?
    ensures Inv(Exec(s, steps).value)
    ensures Clean(s) ==> Clean(Exec(s, steps).value)
  {
    hide Inv, Clean, Next;
    if steps != [] {
      var n := |steps| - 1;
      ExecKeepsInv(s, steps[..n]);
      NextKeepsInv(Exec(s, steps[..n]).value, steps[n]);
    }
  }

  lemma NextKeepsInv(s: State, step: Step)
    requires Inv(s)
    ensures var t := Next(s, step);
            t.Some? ==> Inv(t.value) && (Clean(s) ==> Clean(t.value))
  {
    hide Inv, Clean, Apply, Enabled;
    if Next(s, step).Some? {
      StepKeepsInv(s, step);
      CleanOrNot(s, step);
    }
  }

  lemma CleanOrNot(s: State, step: Step)
    requires Inv(s) && Enabled(s, step)
    ensures Inv(Apply(s, step)) && (Clean(s) ==> Clean(Apply(s, step)))
  {
    hide Apply, Enabled, EntryOk, Conserved;
    StepKeepsInv(s, step);
    if Clean(s) { StepKeepsClean(s, step); }
  }

  /**
   * In every state of every run that starts with zero blocks each buffer is in exactly one
   * place, and at most once in it; free buffers have a zero block; and a request nobody has
   * acknowledged was posted as often as its scans allow: three times at most.
   */
  lemma RunConserves(poll: seq<Poll>, sn: seq<byte>, age: seq<nat>, steps: seq<Step>)
    requires |sn| == |poll| && |age| == |poll| && AllZero(poll)
    requires Exec(Initial(poll, sn, age), steps).Some?
    ensures var s := Exec(Initial(poll, sn, age), steps).value;
            Sized(s) && (forall id: Id :: Places(s, id) == if id < |s.poll| then 1 else 0) &&
            NoDuplicates(s.free) && NoDuplicates(s.list) && NoDuplicates(s.mail) &&
            (forall id: Id :: id < |s.poll| && id in s.free ==> s.poll[id] == ZERO) &&
            (forall id: Id :: id < |s.poll| && IsListed(s, id) && s.poll[id].kind == 1 ==> WellPosted(s, id))
  {
    InitialInv(poll, sn, age);
    ExecKeepsInv(Initial(poll, sn, age), steps);
    hide Exec;
    var s := Exec(Initial(poll, sn, age), steps).value;
    forall id: Id | id < |s.poll| && IsListed(s, id) && s.poll[id].kind == 1 ensures WellPosted(s, id) {
      assert EntryOk(s.poll[id], s.age[id], s.posts[id]);
      if !s.poll[id].freeFlag { Retransmission(s.age[id]); }
    }
  }

  /** A listed request was posted three times at most, and without acknowledgement exactly as its scans demand. */
  predicate WellPosted(s: State, id: Id)
    requires Sized(s) && id < |s.poll|
  {
    s.posts[id] <= 3 && (!s.poll[id].freeFlag ==> s.age[id] <= 300 && s.posts[id] == PostCount(s.age[id]))
  }

  // ----- which blocks the memory may hold at first

  function Productions(n: nat): seq<Step> { seq(n, _ => Produce) }

  function FirstIds(n: nat): set<Id> {
    if n == 0 then {} else FirstIds(n - 1) + {n - 1}
  }

  /** The first n buffers are with frame builders. */
  lemma {:induction false} ProducedFirst(poll: seq<Poll>, sn: seq<byte>, age: seq<nat>, n: nat)
    requires |sn| == |poll| && |age| == |poll| && n <= |poll|
    ensures var s := Initial(poll, sn, age);
            Exec(s, Productions(n)) == Some(s.(free := s.free[n..], held := FirstIds(n)))
  {
    var s := Initial(poll, sn, age);
    if n == 0 {
      assert FirstIds(0) == {} && s.free[0..] == s.free;
    } else {
      ProducedFirst(poll, sn, age, n - 1);
      ExecStep(s, Productions(n - 1), Produce);
      assert Productions(n) == Productions(n - 1) + [Produce];
      assert s.free[n - 1..][1..] == s.free[n..];
    }
  }

  /** A block that claims to be acknowledged but was never sent is posted, and recycled while it is still listed. */
  lemma FlaggedIsLost(s: State, id: Id)
    requires Sized(s) && id in s.held && id < |s.poll| && s.cursor == None && s.list == [] && s.mail == []
    requires s.poll[id].times == 0 && s.poll[id].freeFlag
    ensures var d := Then(Then(Then(Next(s, Enqueue(id, 1, 0)), BeginScan), PollEntry), Send);
            d.Some? && !Conserved(d.value)
  {
    hide Conserved;
    var a := Apply(s, Enqueue(id, 1, 0));
    assert a.list == [id];
    var b := Apply(a, BeginScan);
    var c := Apply(b, PollEntry);
    assert c.mail == [id] && c.list == [id];
    var d := Apply(c, Send);
    assert d.free == c.free + [id] && d.free[|c.free|] == id && d.list == [id];
    InTwoPlaces(d, id);
  }

  /** The run that loses buffer id if its block is flagged. */
  function FlaggedRun(id: Id): seq<Step> {
    Productions(id + 1) + [Enqueue(id, 1, 0)] + [BeginScan] + [PollEntry] + [Send]
  }

  lemma FlaggedRunLoses(poll: seq<Poll>, sn: seq<byte>, age: seq<nat>, id: Id)
    requires |sn| == |poll| && |age| == |poll| && id < |poll| && poll[id].times == 0 && poll[id].freeFlag
    ensures var t := Exec(Initial(poll, sn, age), FlaggedRun(id)); t.Some? && !Conserved(t.value)
  {
    hide Conserved, Next, Exec;
    var s, p := Initial(poll, sn, age), Productions(id + 1);
    ProducedFirst(poll, sn, age, id + 1);
    FlaggedIsLost(Exec(s, p).value, id);
    ExecStep(s, p, Enqueue(id, 1, 0));
    ExecStep(s, p + [Enqueue(id, 1, 0)], BeginScan);
    ExecStep(s, p + [Enqueue(id, 1, 0)] + [BeginScan], PollEntry);
    ExecStep(s, p + [Enqueue(id, 1, 0)] + [BeginScan] + [PollEntry], Send);
  }

  /** A lone request whose next posting makes its counter of sendings zero again. */
  predicate AboutToWrap(s: State, id: Id) {
    Sized(s) && id < |s.poll| && s.list == [id] && s.mail == [] && s.cursor == None && s.sn[id] == 0 &&
    s.poll[id].kind == 1 && s.poll[id].times == LAST && !s.poll[id].freeFlag
  }

  /** The step after a scan of the request does nothing but age it. */
  lemma IdleRound(s: State, id: Id)
    requires AboutToWrap(s, id) && Plus32(s.poll[id].delay, 5) < 500
    ensures var t := Then(Then(Next(s, BeginScan), PollEntry), EndScan);
            t.Some? && AboutToWrap(t.value, id) && t.value.poll[id].delay == Plus32(s.poll[id].delay, 5)
  {
  }

  /** The run `steps`, and as many idle scans as it takes until an entry with this delay is posted. */
  function Idling(steps: seq<Step>, delay: u32): seq<Step>
    decreases if delay >= 500 then 1000 else 500 - delay
  {
    if Plus32(delay, 5) >= 500 then steps
    else Idling(steps + [BeginScan] + [PollEntry] + [EndScan], Plus32(delay, 5))
  }

  lemma {:induction false} IdlingRun(s: State, steps: seq<Step>, id: Id)
    requires Exec(s, steps).Some? && AboutToWrap(Exec(s, steps).value, id)
    ensures var t := Exec(s, Idling(steps, Exec(s, steps).value.poll[id].delay));
            t.Some? && AboutToWrap(t.value, id) && Plus32(t.value.poll[id].delay, 5) >= 500
    decreases var delay := Exec(s, steps).value.poll[id].delay; if delay >= 500 then 1000 else 500 - delay
  {
    hide Exec, Next;
    var t := Exec(s, steps).value;
    if Plus32(t.poll[id].delay, 5) < 500 {
      IdleRound(t, id);
      ExecStep(s, steps, BeginScan);
      ExecStep(s, steps + [BeginScan], PollEntry);
      ExecStep(s, steps + [BeginScan] + [PollEntry], EndScan);
      IdlingRun(s, steps + [BeginScan] + [PollEntry] + [EndScan], id);
    }
  }

  /** It is posted and written; its counter is zero; it is posted and written again. */
  function WrapUp(steps: seq<Step>): seq<Step> {
    steps + [BeginScan] + [PollEntry] + [Send] + [EndScan] + [Ack(0)] + [BeginScan] + [PollEntry] + [Send]
  }

  /** After the first of these postings the request has been sent, and can be acknowledged. */
  lemma WrappedAround(s: State, id: Id)
    requires AboutToWrap(s, id) && Plus32(s.poll[id].delay, 5) >= 500
    ensures var t := Then(Then(Then(Then(Next(s, BeginScan), PollEntry), Send), EndScan), Ack(0));
            t.Some? && Sized(t.value) && t.value.list == [id] && t.value.mail == [] && t.value.cursor == None &&
            id < |t.value.poll| && t.value.poll[id] == Poll(0, 0, 1, true)
  {
    var c := Apply(Apply(s, BeginScan), PollEntry);
    assert c.mail == [id] && c.list == [id] && c.posts[id] > 0 && c.poll[id] == Poll(0, 0, 1, false);
    var e := Apply(Apply(c, Send), EndScan);
    assert e.mail == [] && e.list == [id] && e.poll[id] == Poll(0, 0, 1, false) && e.sn[id] == 0;
    assert FirstWith(e, e.list, 0) == 0;
  }

  /** The next scan posts it as if for the first time, and it is recycled while it is still listed. */
  lemma SentAfterAnswer(s: State, id: Id)
    requires Sized(s) && id < |s.poll| && s.list == [id] && s.mail == [] && s.cursor == None
    requires s.poll[id] == Poll(0, 0, 1, true)
    ensures var t := Then(Then(Next(s, BeginScan), PollEntry), Send); t.Some? && !Conserved(t.value)
  {
    hide Conserved;
    var c := Apply(Apply(s, BeginScan), PollEntry);
    assert c.mail == [id] && c.list == [id];
    var d := Apply(c, Send);
    assert d.free == c.free + [id] && d.free[|c.free|] == id && d.list == [id];
    InTwoPlaces(d, id);
  }

  lemma WrapUpLoses(s: State, steps: seq<Step>, id: Id)
    requires Exec(s, steps).Some? && AboutToWrap(Exec(s, steps).value, id)
    requires Plus32(Exec(s, steps).value.poll[id].delay, 5) >= 500
    ensures var t := Exec(s, WrapUp(steps)); t.Some? && !Conserved(t.value)
  {
    hide Conserved, Next, Exec;
    WrappedAround(Exec(s, steps).value, id);
    ExecStep(s, steps, BeginScan);
    ExecStep(s, steps + [BeginScan], PollEntry);
    ExecStep(s, steps + [BeginScan] + [PollEntry], Send);
    ExecStep(s, steps + [BeginScan] + [PollEntry] + [Send], EndScan);
    ExecStep(s, steps + [BeginScan] + [PollEntry] + [Send] + [EndScan], Ack(0));
    var sent := steps + [BeginScan] + [PollEntry] + [Send] + [EndScan] + [Ack(0)];
    SentAfterAnswer(Exec(s, sent).value, id);
    ExecStep(s, sent, BeginScan);
    ExecStep(s, sent + [BeginScan], PollEntry);
    ExecStep(s, sent + [BeginScan] + [PollEntry], Send);
  }

  /** The run that loses buffer id if its counter is about to wrap around. */
  function WrappingRun(id: Id, delay: u32): seq<Step> {
    WrapUp(Idling(Productions(id + 1) + [Enqueue(id, 1, 0)], delay))
  }

  lemma WrappingRunLoses(poll: seq<Poll>, sn: seq<byte>, age: seq<nat>, id: Id)
    requires |sn| == |poll| && |age| == |poll| && id < |poll| && poll[id].times == LAST && !poll[id].freeFlag
    ensures var t := Exec(Initial(poll, sn, age), WrappingRun(id, poll[id].delay)); t.Some? && !Conserved(t.value)
  {
    var s, p := Initial(poll, sn, age), Productions(id + 1);
    ProducedFirst(poll, sn, age, id + 1);
    ExecStep(s, p, Enqueue(id, 1, 0));
    var t := Exec(s, p).value;
    assert Apply(t, Enqueue(id, 1, 0)).list == [id];
    hide Conserved, Next, Exec;
    var steps := p + [Enqueue(id, 1, 0)];
    IdlingRun(s, steps, id);
    WrapUpLoses(s, Idling(steps, poll[id].delay), id);
  }

  /**
   * The pool's memory comes uncleared from the allocator. Whatever it holds, all runs conserve
   * the buffers if and only if no block has a zero counter of sendings and a set flag, and none
   * has the greatest counter and no flag.
   */
  lemma ConservationExact(poll: seq<Poll>, sn: seq<byte>, age: seq<nat>)
    requires |sn| == |poll| && |age| == |poll|
    ensures (forall steps :: RunKeeps(Initial(poll, sn, age), steps)) <==> AllSafe(poll)
  {
    var s := Initial(poll, sn, age);
    if AllSafe(poll) {
      InitialInv(poll, sn, age);
      forall steps ensures RunKeeps(s, steps) {
        if Exec(s, steps).Some? { ExecKeepsInv(s, steps); }
      }
    } else {
      hide Conserved, Exec, WrappingRun;
      var id :| 0 <= id < |poll| && !Safe(poll[id]);
      if poll[id].times == 0 {
        FlaggedRunLoses(poll, sn, age, id);
        assert !RunKeeps(s, FlaggedRun(id));
      } else {
        WrappingRunLoses(poll, sn, age, id);
        assert !RunKeeps(s, WrappingRun(id, poll[id].delay));
      }
    }
  }

  ghost predicate RunKeeps(s: State, steps: seq<Step>) {
    Exec(s, steps).Some? ==> Conserved(Exec(s, steps).value)
  }

  // ----- runs that end where an acknowledgement must not come

  function OneBuffer(): State { Initial([ZERO], [0], [0]) }

  /** A request can be listed before it is sent; an acknowledgement then loses its buffer. */
  lemma NeverSentReachable()
    ensures var t := Exec(OneBuffer(), [Produce] + [Enqueue(0, 1, 0)]);
            t.Some? && Inv(t.value) && |t.value.poll| == 1 && t.value.list == [0] && t.value.mail == [] &&
            t.value.cursor == None &&
            NeverSent(t.value.poll[0]) && !Conserved(AckThenScan(t.value, 0))
  {
    hide Inv, Conserved;
    var s := OneBuffer();
    InitialInv([ZERO], [0], [0]);
    assert s.free == [0];
    ExecStep(s, [], Produce);
    assert [] + [Produce] == [Produce];
    ExecStep(s, [Produce], Enqueue(0, 1, 0));
    ExecKeepsInv(s, [Produce] + [Enqueue(0, 1, 0)]);
    NeverSentIsLost(Exec(s, [Produce] + [Enqueue(0, 1, 0)]).value, 0);
  }

  /** A posting can be in the mailbox while the scan is over and its entry is listed; the same happens. */
  lemma PendingReachable()
    ensures var t := Exec(OneBuffer(), [Produce] + [Enqueue(0, 1, 0)] + [BeginScan] + [PollEntry] + [EndScan]);
            t.Some? && Inv(t.value) && t.value.list == [0] && t.value.mail == [0] && !Conserved(AckThenScan(t.value, 0))
  {
    hide Inv, Conserved, Next;
    var s, steps := OneBuffer(), [Produce] + [Enqueue(0, 1, 0)];
    NeverSentReachable();
    InitialInv([ZERO], [0], [0]);
    InvSized(Exec(s, steps).value);
    PostedAtOnce(Exec(s, steps).value);
    ExecStep(s, steps, BeginScan);
    ExecStep(s, steps + [BeginScan], PollEntry);
    ExecStep(s, steps + [BeginScan] + [PollEntry], EndScan);
    ExecKeepsInv(s, steps + [BeginScan] + [PollEntry] + [EndScan]);
    PendingIsLost(Exec(s, steps + [BeginScan] + [PollEntry] + [EndScan]).value, 0);
  }

  lemma PostedAtOnce(s: State)
    requires Sized(s) && |s.poll| == 1 && s.list == [0] && s.mail == [] && s.cursor == None && NeverSent(s.poll[0])
    ensures var t := Then(Then(Next(s, BeginScan), PollEntry), EndScan);
            t.Some? && t.value.list == [0] && t.value.mail == [0]
  {
  }
}
