/** The life of one request in an arbitrary run of the UART send side. */
module Requests {
  import opened Bytes
  import opened Sequences
  import opened LinkModel
  import opened Runs

  /** The frames of a buffer that are on the line or on their way there. */
  function Posted(s: State, id: Id): nat { Count(s.wire, id) + Count(s.mail, id) }

  predicate Enqueues(step: Step, id: Id) { step.Enqueue? && step.id == id }

  predicate Undisturbed(steps: seq<Step>, id: Id) { forall i :: 0 <= i < |steps| ==> !Enqueues(steps[i], id) }

  /** The complete scans of a run. */
  function Scans(steps: seq<Step>): nat {
    if steps == [] then 0 else Scans(steps[..|steps| - 1]) + if steps[|steps| - 1] == EndScan then 1 else 0
  }

  /** An acknowledgement with this number finds the entry id. */
  predicate Hits(s: State, step: Step, id: Id) {
    step.Ack? && Sized(s) &&
    var k := FirstWith(s, s.list, step.sn); k < |s.list| && s.list[k] == id
  }

  /** No acknowledgement of the run finds the entry id, though some may have its number. */
  predicate Unanswered(s: State, steps: seq<Step>, id: Id) {
    steps == [] ||
    (var n := |steps| - 1;
     Unanswered(s, steps[..n], id) && (Exec(s, steps[..n]).Some? ==> !Hits(Exec(s, steps[..n]).value, steps[n], id)))
  }

  /** Until a buffer is enqueued again, every posting counted is on the line or in the mailbox. */
  lemma PostedOnce(s: State, step: Step, id: Id)
    requires Sized(s) && Enabled(s, step) && id < |s.poll| && !Enqueues(step, id)
    ensures var t := Apply(s, step);
            Sized(t) && |t.poll| == |s.poll| && Posted(t, id) + s.posts[id] == Posted(s, id) + t.posts[id]
  {
    var t := Apply(s, step);
    match step
    case PollEntry =>
      RemovedAt(s.list, s.cursor.value);
      CountJoin(s.mail, [s.list[s.cursor.value]], id);
    case Send =>
      CountJoin(s.wire, [s.mail[0]], id);
    case _ =>
  }

  /** A visit to one entry changes nothing about another buffer. */
  lemma ScanElsewhere(s: State, k: nat, id: Id)
    requires Sized(s) && Conserved(s) && k < |s.list| && s.list[k] != id && id < |s.poll|
    ensures var t := ScanAt(s, k);
            Sized(t) && |t.poll| == |s.poll| && t.sn == s.sn && t.poll[id] == s.poll[id] && t.age[id] == s.age[id] &&
            t.posts[id] == s.posts[id] && IsListed(t, id) == IsListed(s, id) && (id in t.mail <==> id in s.mail)
  {
    ListedOnce(s, k);
    hide Conserved, Removed, Scan;
  }

  /** A visit to the entry itself. */
  lemma ScanHere(s: State, k: nat)
    requires Sized(s) && Conserved(s) && k < |s.list|
    ensures var id := s.list[k]; var t := ScanAt(s, k); var r := Scan(s.poll[id]);
            Sized(t) && |t.poll| == |s.poll| && t.sn == s.sn && t.poll[id] == r.poll && t.age[id] == s.age[id] + 1 &&
            t.posts[id] == (if Posts(r.action) then s.posts[id] + 1 else s.posts[id]) &&
            IsListed(t, id) == Stays(r.action) && (id in t.mail <==> id in s.mail || Posts(r.action))
  {
    ListedOnce(s, k);
    hide Conserved, Removed, Scan;
  }

  // ----- visits

  /** The entries that the running scan has passed. */
  function Passed(s: State): seq<Id> {
    if s.cursor.Some? && s.cursor.value <= |s.list| then s.list[..s.cursor.value] else []
  }

  function Visits(s: State, id: Id): nat { if id in Passed(s) then 1 else 0 }

  /**
   * How often an entry has been visited that was `base` visits old n complete scans ago: once in
   * each of them, and once in the running one if it has been passed.
   */
  predicate Counted(s: State, id: Id, base: nat, n: nat)
    requires Sized(s) && id < |s.poll|
  {
    if IsListed(s, id) then s.age[id] == base + n + Visits(s, id)
    else base < s.age[id] <= base + n + if s.cursor.Some? then 1 else 0
  }

  /** Passing the entry at the cursor. */
  lemma PassOne(s: State, k: nat, id: Id)
    requires Inv(s) && s.cursor == Some(k) && k < |s.list|
    ensures var t := ScanAt(s, k);
            t.cursor.Some? && Sized(t) &&
            if s.list[k] == id then Visits(s, id) == 0 && (IsListed(t, id) ==> Visits(t, id) == 1)
            else Visits(t, id) == Visits(s, id)
  {
    hide Conserved, Scan;
    var t := ScanAt(s, k);
    Once(s, k);
    RemovedAt(s.list, k);
    if t.list == s.list {
      assert s.list[..k + 1] == s.list[..k] + [s.list[k]];
    } else {
      assert Removed(s.list, k)[..k] == s.list[..k];
    }
  }

  lemma Once(s: State, k: nat)
    requires Conserved(s) && k < |s.list|
    ensures s.list[k] !in s.list[..k] && s.list[k] !in Removed(s.list, k)
  {
    ListedOnce(s, k);
  }

  lemma CountedScan(s: State, k: nat, id: Id, base: nat, n: nat)
    requires Inv(s) && s.cursor == Some(k) && k < |s.list| && id < |s.poll| && Counted(s, id, base, n)
    ensures var t := ScanAt(s, k); Sized(t) && |t.poll| == |s.poll| && Counted(t, id, base, n)
  {
    PassOne(s, k, id);
    hide Conserved, ScanAt, Scan, Passed;
    if s.list[k] == id { ScanHere(s, k); } else { ScanElsewhere(s, k, id); }
  }

  lemma CountedStep(s: State, step: Step, id: Id, base: nat, n: nat)
    requires Inv(s) && Enabled(s, step) && id < |s.poll| && Counted(s, id, base, n) && !Enqueues(step, id)
    ensures var t := Apply(s, step);
            Sized(t) && |t.poll| == |s.poll| && Counted(t, id, base, if step == EndScan then n + 1 else n)
  {
    hide Conserved, ScanAt;
    match step
    case PollEntry => CountedScan(s, s.cursor.value, id, base, n);
    case EndScan => assert s.list[..s.cursor.value] == s.list;
    case _ =>
  }

  /** Along a run every complete scan counts once. */
  lemma {:induction false} CountedFrom(s: State, steps: seq<Step>, id: Id, base: nat)
    requires Inv(s) && id < |s.poll| && Counted(s, id, base, 0) && Exec(s, steps).Some? && Undisturbed(steps, id)
    ensures var t := Exec(s, steps).value;
            Inv(t) && |t.poll| == |s.poll| && Counted(t, id, base, Scans(steps))
  {
    hide Conserved, Next;
    ExecKeepsInv(s, steps);
    if steps != [] {
      var n := |steps| - 1;
      CountedFrom(s, steps[..n], id, base);
      var u := Exec(s, steps[..n]).value;
      NextIs(u, steps[n]);
      CountedStep(u, steps[n], id, base, Scans(steps[..n]));
    }
  }

  lemma NextIs(s: State, step: Step)
    requires Next(s, step).Some?
    ensures Sized(s) && Enabled(s, step) && Next(s, step).value == Apply(s, step)
  {
  }

  /** Nothing is enqueued while a scan runs. */
  lemma {:induction false} ScanIsClosed(s: State, steps: seq<Step>, id: Id)
    requires s.cursor.Some? && Exec(s, steps).Some? && forall i :: 0 <= i < |steps| ==> steps[i] != EndScan
    ensures Exec(s, steps).value.cursor.Some? && Undisturbed(steps, id) && Scans(steps) == 0
  {
    hide Next;
    if steps != [] {
      var n := |steps| - 1;
      ScanIsClosed(s, steps[..n], id);
      hide Exec;
      StaysInScan(Exec(s, steps[..n]).value, steps[n]);
    }
  }

  lemma StaysInScan(s: State, step: Step)
    requires Next(s, step).Some? && s.cursor.Some? && step != EndScan
    ensures Next(s, step).value.cursor.Some? && !step.Enqueue?
  {
  }

  /** One scan, from its beginning to its end, visits every listed entry exactly once. */
  lemma OneVisitEach(s: State, steps: seq<Step>, id: Id)
    requires Inv(s) && s.cursor == None && id < |s.poll| && IsListed(s, id)
    requires forall i :: 0 <= i < |steps| ==> steps[i] != EndScan
    requires Exec(s, [BeginScan] + steps + [EndScan]).Some?
    ensures var t := Exec(s, [BeginScan] + steps + [EndScan]).value;
            Inv(t) && |t.poll| == |s.poll| && t.age[id] == s.age[id] + 1
  {
    var b := s.(cursor := Some(0));
    StepKeepsInv(s, BeginScan);
    BeginThen(s, steps);
    ExecStep(s, [BeginScan] + steps, EndScan);
    ScanIsClosed(b, steps, id);
    CountedFrom(b, steps, id, s.age[id]);
    hide Exec, Conserved;
    var u := Exec(b, steps).value;
    NextIs(u, EndScan);
    CountedStep(u, EndScan, id, s.age[id], 0);
    StepKeepsInv(u, EndScan);
  }

  lemma {:induction false} BeginThen(s: State, steps: seq<Step>)
    requires Sized(s) && s.cursor == None
    ensures Exec(s, [BeginScan] + steps) == Exec(s.(cursor := Some(0)), steps)
  {
    hide Next;
    if steps == [] {
      ExecStep(s, [], BeginScan);
      assert [] + [BeginScan] == [BeginScan] == [BeginScan] + steps;
      NextBegin(s);
    } else {
      var n := |steps| - 1;
      BeginThen(s, steps[..n]);
      assert [BeginScan] + steps == ([BeginScan] + steps[..n]) + [steps[n]] && steps == steps[..n] + [steps[n]];
      ExecStep(s, [BeginScan] + steps[..n], steps[n]);
    }
  }

  lemma NextBegin(s: State)
    requires Sized(s) && s.cursor == None
    ensures Next(s, BeginScan) == Some(s.(cursor := Some(0)))
  {
  }

  // ----- a request that nobody answers

  predicate InHand(s: State, id: Id) { id in s.free || id in s.held }

  /** A request on its way, n complete scans later: listed and not acknowledged, or dropped by its last visit. */
  predicate Waiting(s: State, id: Id, n: nat)
    requires Sized(s) && id < |s.poll|
  {
    if IsListed(s, id) then s.poll[id].kind == 1 && !s.poll[id].freeFlag
    else s.posts[id] == 3 && s.age[id] == 301 && n >= 300 && InHand(s, id)
  }

  lemma WaitingScan(s: State, k: nat, id: Id, n: nat)
    requires Inv(s) && Clean(s) && s.cursor == Some(k) && k < |s.list| && id < |s.poll|
    requires Waiting(s, id, n) && Counted(s, id, 0, n)
    ensures var t := ScanAt(s, k); Sized(t) && |t.poll| == |s.poll| && Waiting(t, id, n)
  {
    PassOne(s, k, id);
    ScanPools(s, k, id);
    hide Conserved, ScanAt, Passed;
    if s.list[k] == id {
      assert IsListed(s, id) && EntryOk(s.poll[id], s.age[id], s.posts[id]);
      hide Inv, Clean;
      ScanHere(s, k);
      Retransmission(s.age[id]);
    } else {
      ScanElsewhere(s, k, id);
    }
  }

  /** What a visit means for the pool and the builders. */
  lemma ScanPools(s: State, k: nat, id: Id)
    requires Sized(s) && k < |s.list|
    ensures var t := ScanAt(s, k); var x := s.list[k];
            (InHand(s, id) ==> InHand(t, id)) && (Scan(s.poll[x]).action == Recycle ==> InHand(t, x))
  {
    hide Scan;
    var t := ScanAt(s, k);
    if Scan(s.poll[s.list[k]]).action == Recycle { assert t.free[|s.free|] == s.list[k]; }
  }

  lemma WaitingSend(s: State, id: Id, n: nat)
    requires Inv(s) && s.mail != [] && id < |s.poll| && Waiting(s, id, n)
    ensures var t := SendOne(s); Sized(t) && |t.poll| == |s.poll| && Waiting(t, id, n)
  {
    assert s.mail[0] in s.mail;
  }

  lemma WaitingStep(s: State, step: Step, id: Id, n: nat)
    requires Inv(s) && Clean(s) && Enabled(s, step) && id < |s.poll| && Waiting(s, id, n) && Counted(s, id, 0, n)
    requires !Enqueues(step, id) && !Hits(s, step, id)
    ensures var t := Apply(s, step);
            Sized(t) && |t.poll| == |s.poll| && Waiting(t, id, if step == EndScan then n + 1 else n)
  {
    hide Conserved, EntryOk, Clean, ScanAt, SendOne, Counted;
    match step
    case Produce => assert s.free == [s.free[0]] + s.free[1..];
    case PollEntry => WaitingScan(s, s.cursor.value, id, n);
    case Send => WaitingSend(s, id, n);
    case _ =>
  }

  /** A request at its enqueueing: the block was zero, and only the type has been set. */
  predicate JustEnqueued(s: State, id: Id)
    requires Sized(s) && id < |s.poll|
  {
    IsListed(s, id) && s.poll[id] == Aged(0) && s.age[id] == 0 && s.posts[id] == 0 && s.cursor == None
  }

  lemma {:induction false} UnansweredRun(s: State, steps: seq<Step>, id: Id)
    requires Inv(s) && Clean(s) && id < |s.poll| && JustEnqueued(s, id)
    requires Exec(s, steps).Some? && Undisturbed(steps, id) && Unanswered(s, steps, id)
    ensures var t := Exec(s, steps).value;
            Inv(t) && Clean(t) && |t.poll| == |s.poll| && Waiting(t, id, Scans(steps)) &&
            Counted(t, id, 0, Scans(steps)) && Posted(t, id) == Posted(s, id) + t.posts[id]
  {
    hide Conserved, EntryOk, Clean, Next, Counted, Waiting;
    ExecKeepsInv(s, steps);
    if steps == [] {
      Fresh(s, id);
    } else {
      var n := |steps| - 1;
      UnansweredRun(s, steps[..n], id);
      var u := Exec(s, steps[..n]).value;
      NextIs(u, steps[n]);
      WaitingStep(u, steps[n], id, Scans(steps[..n]));
      CountedStep(u, steps[n], id, 0, Scans(steps[..n]));
      PostedOnce(u, steps[n], id);
    }
  }

  lemma Fresh(s: State, id: Id)
    requires Sized(s) && id < |s.poll| && JustEnqueued(s, id)
    ensures Waiting(s, id, 0) && Counted(s, id, 0, 0)
  {
  }

  /**
   * A request in an arbitrary run, whatever else is produced, enqueued, scanned, sent and
   * acknowledged meanwhile, as long as no acknowledgement finds it. After n complete scans, and
   * perhaps a part of another, it is still listed only if n <= 300, and was written, or is about
   * to be, once for each of its visits 1, 101 and 201. Otherwise n >= 300, it was written exactly
   * three times, and its buffer, with a zero block, is in the pool or with its next builder.
   */
  lemma RequestLife(s: State, id: Id, sn: byte, steps: seq<Step>)
    requires Inv(s) && Clean(s) && Enabled(s, Enqueue(id, 1, sn))
    requires Undisturbed(steps, id) && Unanswered(Apply(s, Enqueue(id, 1, sn)), steps, id)
    ensures var e := Apply(s, Enqueue(id, 1, sn)); var n := Scans(steps);
            Exec(e, steps).Some? ==>
              var t := Exec(e, steps).value;
              Inv(t) && |t.poll| == |s.poll| &&
              if IsListed(t, id) then
                n <= 300 && t.age[id] == n + Visits(t, id) <= 300 &&
                Posted(t, id) == Posted(s, id) + PostCount(t.age[id])
              else n >= 300 && Posted(t, id) == Posted(s, id) + 3 && InHand(t, id) && t.poll[id] == ZERO
  {
    var e := Apply(s, Enqueue(id, 1, sn));
    StepKeepsClean(s, Enqueue(id, 1, sn));
    assert e.list[|s.list|] == id;
    hide Conserved, Next, Exec, Enabled, Apply;
    if Exec(e, steps).Some? {
      UnansweredRun(e, steps, id);
      var t := Exec(e, steps).value;
      if IsListed(t, id) {
        assert EntryOk(t.poll[id], t.age[id], t.posts[id]);
        Retransmission(t.age[id]);
      }
    }
  }

  // ----- a request that has been answered

  /**
   * Nothing more will be posted: in no mailbox; acknowledged and not visited since, if it is
   * still listed; in hand with a zero block otherwise.
   */
  predicate Dismissed(s: State, id: Id, n: nat)
    requires Sized(s) && id < |s.poll|
  {
    id !in s.mail &&
    if IsListed(s, id) then
      s.poll[id].kind == 1 && s.poll[id].times > 0 && s.poll[id].freeFlag && n == 0 && id !in Passed(s)
    else InHand(s, id) && s.poll[id] == ZERO
  }

  lemma WireKept(s: State, k: nat)
    requires Sized(s) && k < |s.list|
    ensures ScanAt(s, k).wire == s.wire
  {
  }

  lemma DismissedScan(s: State, k: nat, id: Id, n: nat)
    requires Inv(s) && s.cursor == Some(k) && k < |s.list| && s.mail == [] && id < |s.poll| && Dismissed(s, id, n)
    ensures var t := ScanAt(s, k);
            Sized(t) && |t.poll| == |s.poll| && Dismissed(t, id, n) && t.wire == s.wire
  {
    PassOne(s, k, id);
    ScanPools(s, k, id);
    WireKept(s, k);
    hide Conserved, ScanAt, Passed;
    if s.list[k] == id { ScanHere(s, k); } else { ScanElsewhere(s, k, id); }
  }

  lemma DismissedSend(s: State, id: Id, n: nat)
    requires Inv(s) && s.mail != [] && id < |s.poll| && Dismissed(s, id, n)
    ensures var t := SendOne(s);
            Sized(t) && |t.poll| == |s.poll| && Dismissed(t, id, n) && Count(t.wire, id) == Count(s.wire, id)
  {
    hide Conserved;
    assert s.mail[0] in s.mail;
    CountJoin(s.wire, [s.mail[0]], id);
  }

  lemma DismissedStep(s: State, step: Step, id: Id, n: nat)
    requires Inv(s) && Enabled(s, step) && id < |s.poll| && Dismissed(s, id, n) && !Enqueues(step, id)
    ensures var t := Apply(s, step);
            Sized(t) && |t.poll| == |s.poll| && Dismissed(t, id, if step == EndScan then n + 1 else n) &&
            Count(t.wire, id) == Count(s.wire, id)
  {
    hide Conserved, ScanAt, SendOne, Removed;
    match step
    case Produce => assert s.free == [s.free[0]] + s.free[1..];
    case PollEntry => DismissedScan(s, s.cursor.value, id, n);
    case Send => DismissedSend(s, id, n);
    case EndScan => assert s.list[..s.cursor.value] == s.list;
    case _ =>
  }

  /** Once nothing more will be posted, nothing is, until the buffer is enqueued again. */
  lemma {:induction false} NotSentAgain(s: State, steps: seq<Step>, id: Id)
    requires Inv(s) && id < |s.poll| && Dismissed(s, id, 0) && Exec(s, steps).Some? && Undisturbed(steps, id)
    ensures var t := Exec(s, steps).value;
            Inv(t) && |t.poll| == |s.poll| && Dismissed(t, id, Scans(steps)) && Count(t.wire, id) == Count(s.wire, id)
  {
    hide Conserved, Next, Dismissed;
    ExecKeepsInv(s, steps);
    if steps != [] {
      var n := |steps| - 1;
      NotSentAgain(s, steps[..n], id);
      var u := Exec(s, steps[..n]).value;
      NextIs(u, steps[n]);
      DismissedStep(u, steps[n], id, Scans(steps[..n]));
    }
  }

  /**
   * A request that an acknowledgement finds is never written again, and after the next complete
   * scan its buffer, with a zero block, is in the pool or with its next builder.
   */
  lemma Answered(s: State, sn: byte, id: Id, steps: seq<Step>)
    requires Inv(s) && Enabled(s, Ack(sn)) && Hits(s, Ack(sn), id) && s.poll[id].kind == 1
    requires Undisturbed(steps, id)
    ensures var a := Apply(s, Ack(sn));
            Exec(a, steps).Some? ==>
              var t := Exec(a, steps).value;
              Inv(t) && |t.poll| == |s.poll| && Count(t.wire, id) == Count(s.wire, id) && id !in t.mail &&
              (Scans(steps) > 0 ==> !IsListed(t, id)) && (!IsListed(t, id) ==> InHand(t, id) && t.poll[id] == ZERO)
  {
    var a := Apply(s, Ack(sn));
    StepKeepsInv(s, Ack(sn));
    CounterOrHistory(s, FirstWith(s, s.list, sn));
    hide Conserved, Next, Exec;
    if Exec(a, steps).Some? { NotSentAgain(a, steps, id); }
  }

  // ----- a response

  /**
   * A response n complete scans after its enqueueing: listed and not visited yet; or in the
   * mailbox, to be recycled when it is sent; or in hand with a zero block.
   */
  predicate Answering(s: State, id: Id, n: nat)
    requires Sized(s) && id < |s.poll|
  {
    if IsListed(s, id) then s.poll[id].kind == 0 && id !in s.mail && s.posts[id] == 0 && n == 0 && id !in Passed(s)
    else s.posts[id] == 1 && if id in s.mail then s.poll[id].freeFlag else InHand(s, id) && s.poll[id] == ZERO
  }

  /** The first visit posts a response and takes it out of the list. */
  lemma ResponsePosted(p: Poll)
    requires p.kind == 0
    ensures Scan(p).action == PostLast && Scan(p).poll.freeFlag
  {
  }

  lemma AnsweringScan(s: State, k: nat, id: Id, n: nat)
    requires Inv(s) && s.cursor == Some(k) && k < |s.list| && s.mail == [] && id < |s.poll| && Answering(s, id, n)
    ensures var t := ScanAt(s, k); Sized(t) && |t.poll| == |s.poll| && Answering(t, id, n)
  {
    PassOne(s, k, id);
    ScanPools(s, k, id);
    hide Conserved, ScanAt, Passed;
    if s.list[k] == id {
      ScanHere(s, k);
      ResponsePosted(s.poll[id]);
      hide Scan;
    } else {
      ScanElsewhere(s, k, id);
    }
  }

  lemma AnsweringSend(s: State, id: Id, n: nat)
    requires Inv(s) && s.mail != [] && id < |s.poll| && Answering(s, id, n)
    ensures var t := SendOne(s); Sized(t) && |t.poll| == |s.poll| && Answering(t, id, n)
  {
    hide Conserved;
    assert s.mail[0] in s.mail;
    var t := SendOne(s);
    if s.poll[s.mail[0]].freeFlag { assert t.free[|s.free|] == s.mail[0]; }
  }

  lemma AnsweringStep(s: State, step: Step, id: Id, n: nat)
    requires Inv(s) && Enabled(s, step) && id < |s.poll| && Answering(s, id, n) && !Enqueues(step, id)
    ensures var t := Apply(s, step);
            Sized(t) && |t.poll| == |s.poll| && Answering(t, id, if step == EndScan then n + 1 else n)
  {
    hide Conserved, ScanAt, SendOne, Removed;
    match step
    case Produce => assert s.free == [s.free[0]] + s.free[1..];
    case PollEntry => AnsweringScan(s, s.cursor.value, id, n);
    case Send => AnsweringSend(s, id, n);
    case EndScan => assert s.list[..s.cursor.value] == s.list;
    case _ =>
  }

  lemma {:induction false} AnsweringRun(s: State, steps: seq<Step>, id: Id)
    requires Inv(s) && id < |s.poll| && Answering(s, id, 0) && Exec(s, steps).Some? && Undisturbed(steps, id)
    ensures var t := Exec(s, steps).value;
            Inv(t) && |t.poll| == |s.poll| && Answering(t, id, Scans(steps)) &&
            Posted(t, id) + s.posts[id] == Posted(s, id) + t.posts[id]
  {
    hide Conserved, Next, Answering;
    ExecKeepsInv(s, steps);
    if steps != [] {
      var n := |steps| - 1;
      AnsweringRun(s, steps[..n], id);
      var u := Exec(s, steps[..n]).value;
      NextIs(u, steps[n]);
      AnsweringStep(u, steps[n], id, Scans(steps[..n]));
      PostedOnce(u, steps[n], id);
    }
  }

  /**
   * A response in an arbitrary run, whatever its buffer held before. It is written once and no
   * more until its buffer is enqueued again. After a complete scan it is out of the list and on
   * the line or in the mailbox; once the mailbox is empty it has been written, and its buffer,
   * with a zero block, is in the pool or with its next builder.
   */
  lemma ResponseLife(s: State, id: Id, sn: byte, steps: seq<Step>)
    requires Inv(s) && Enabled(s, Enqueue(id, 0, sn)) && Undisturbed(steps, id)
    ensures var e := Apply(s, Enqueue(id, 0, sn));
            Exec(e, steps).Some? ==>
              var t := Exec(e, steps).value;
              Inv(t) && |t.poll| == |s.poll| && Posted(t, id) <= Posted(s, id) + 1 &&
              (Scans(steps) > 0 ==> !IsListed(t, id)) &&
              (!IsListed(t, id) ==> Posted(t, id) == Posted(s, id) + 1) &&
              (!IsListed(t, id) && t.mail == [] ==>
                Count(t.wire, id) == Posted(s, id) + 1 && InHand(t, id) && t.poll[id] == ZERO)
  {
    var e := Apply(s, Enqueue(id, 0, sn));
    StepKeepsInv(s, Enqueue(id, 0, sn));
    assert e.list[|s.list|] == id && Places(s, id) <= 1;
    assert id !in s.mail;
    hide Conserved, Next, Exec;
    if Exec(e, steps).Some? { AnsweringRun(e, steps, id); }
  }

  // ----- two responses

  predicate Precedes(list: seq<Id>, a: Id, b: Id) {
    exists i, j :: 0 <= i < j < |list| && list[i] == a && list[j] == b
  }

  lemma PrecedesRemoved(list: seq<Id>, k: nat, a: Id, b: Id)
    requires k < |list| && list[k] != a && list[k] != b && Precedes(list, a, b)
    ensures Precedes(Removed(list, k), a, b)
  {
    var i, j :| 0 <= i < j < |list| && list[i] == a && list[j] == b;
    RemovedAt(list, k);
    var x, y := if i < k then i else i - 1, if j < k then j else j - 1;
    assert Removed(list, k)[x] == a && Removed(list, k)[y] == b;
  }

  lemma AheadScan(s: State, k: nat, a: Id, b: Id, n: nat)
    requires Inv(s) && s.cursor == Some(k) && k < |s.list| && s.mail == [] && a < |s.poll|
    requires Answering(s, a, n) && (IsListed(s, a) ==> Precedes(s.list, a, b))
    ensures var t := ScanAt(s, k); IsListed(t, a) ==> Precedes(t.list, a, b)
  {
    hide Conserved, Scan;
    var t := ScanAt(s, k);
    if IsListed(t, a) {
      ListStays(s, k, a);
      var i, j :| 0 <= i < j < |s.list| && s.list[i] == a && s.list[j] == b;
      if s.list[k] == a { ResponsePosted(s.poll[a]); GoneAfter(s, k); }
      SamePlace(s, j, k);
      EarlierPassed(s, k, i);
      if t.list != s.list { PrecedesRemoved(s.list, k, a, b); }
    }
  }

  lemma ListStays(s: State, k: nat, a: Id)
    requires Sized(s) && k < |s.list|
    ensures IsListed(ScanAt(s, k), a) ==> IsListed(s, a)
  {
    RemovedAt(s.list, k);
  }

  lemma SamePlace(s: State, j: nat, k: nat)
    requires Conserved(s) && j < |s.list| && k < |s.list|
    ensures s.list[j] == s.list[k] ==> j == k
  {
  }

  lemma EarlierPassed(s: State, k: nat, i: nat)
    requires s.cursor == Some(k) && k <= |s.list| && i < |s.list|
    ensures i < k ==> s.list[i] in Passed(s)
  {
    if i < k { assert s.list[..k][i] == s.list[i]; }
  }

  lemma GoneAfter(s: State, k: nat)
    requires Sized(s) && Conserved(s) && k < |s.list| && Scan(s.poll[s.list[k]]).action == PostLast
    ensures !IsListed(ScanAt(s, k), s.list[k])
  {
    ListedOnce(s, k);
  }

  lemma AheadStep(s: State, step: Step, a: Id, b: Id, n: nat)
    requires Inv(s) && Enabled(s, step) && a < |s.poll| && Answering(s, a, n)
    requires !Enqueues(step, a) && !Enqueues(step, b) && (IsListed(s, a) ==> Precedes(s.list, a, b))
    ensures var t := Apply(s, step); IsListed(t, a) ==> Precedes(t.list, a, b)
  {
    hide Conserved, ScanAt, Answering;
    match step
    case PollEntry => AheadScan(s, s.cursor.value, a, b, n);
    case Enqueue(id, _, _) =>
      if IsListed(s, a) {
        var i, j :| 0 <= i < j < |s.list| && s.list[i] == a && s.list[j] == b;
        assert (s.list + [id])[i] == a && (s.list + [id])[j] == b;
      }
    case _ =>
  }

  lemma {:induction false} AheadRun(s: State, steps: seq<Step>, a: Id, b: Id)
    requires Inv(s) && a < |s.poll| && Answering(s, a, 0) && Precedes(s.list, a, b) && Exec(s, steps).Some?
    requires Undisturbed(steps, a) && Undisturbed(steps, b)
    ensures var t := Exec(s, steps).value; IsListed(t, a) ==> Precedes(t.list, a, b)
  {
    hide Conserved, Next, Answering, Precedes;
    if steps != [] {
      var n := |steps| - 1;
      AheadRun(s, steps[..n], a, b);
      AnsweringRun(s, steps[..n], a);
      var u := Exec(s, steps[..n]).value;
      NextIs(u, steps[n]);
      AheadStep(u, steps[n], a, b, Scans(steps[..n]));
    }
  }

  /**
   * Responses leave in the order in which they were enqueued: in any run, as long as the earlier
   * one has not been posted, the later one has not been either.
   */
  lemma ResponsesInOrder(s: State, a: Id, b: Id, sn: byte, steps: seq<Step>)
    requires Inv(s) && a < |s.poll| && IsListed(s, a) && Answering(s, a, 0) && Enabled(s, Enqueue(b, 0, sn))
    requires Undisturbed(steps, a) && Undisturbed(steps, b)
    ensures var e := Apply(s, Enqueue(b, 0, sn));
            Exec(e, steps).Some? ==>
              var t := Exec(e, steps).value;
              IsListed(t, a) ==> Precedes(t.list, a, b) && Posted(t, b) == Posted(s, b)
  {
    var e := Apply(s, Enqueue(b, 0, sn));
    StepKeepsInv(s, Enqueue(b, 0, sn));
    var i :| 0 <= i < |s.list| && s.list[i] == a;
    assert e.list[i] == a && e.list[|s.list|] == b;
    assert Places(s, a) <= 1 && Places(s, b) <= 1 && b !in s.mail;
    hide Conserved, Next, Exec;
    if Exec(e, steps).Some? {
      AheadRun(e, steps, a, b);
      AnsweringRun(e, steps, b);
    }
  }
}
