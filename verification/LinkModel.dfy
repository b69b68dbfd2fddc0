/**
 * The UART send side as a transition system over buffer numbers: the pool, frame builders, the
 * send list scanned by the poll task, the mailbox drained by the send task, and
 * acknowledgements.
 */
module LinkModel {
  import opened Bytes
  import opened Sequences

  type Id = nat

  /** uart_poll_t */
  datatype Poll = Poll(delay: u32, times: u32, kind: u32, freeFlag: bool)

  const ZERO := Poll(0, 0, 0, false)

  /** What a scan does with an entry: post it and unlink it, post it and keep it, recycle it, or nothing. */
  datatype Action = PostLast | Post | Recycle | Idle

  datatype Scanned = Scanned(poll: Poll, action: Action)

  /** The body of the scan loop of uart_poll_tsk on one poll block. */
  function Scan(p: Poll): Scanned {
    if p.kind == 0 then Scanned(p.(freeFlag := true), PostLast)
    else if p.kind == 1 then
      if p.times == 0 then Scanned(p.(times := 1), Post)
      else if p.freeFlag then Scanned(ZERO, Recycle)
      else if Plus32(p.delay, 5) < 500 then Scanned(p.(delay := Plus32(p.delay, 5)), Idle)
      else if Plus32(p.times, 1) > 3 then Scanned(ZERO, Recycle)
      else Scanned(p.(delay := 0, times := Plus32(p.times, 1)), Post)
    else Scanned(p, Idle)
  }

  predicate Stays(a: Action) { a == Post || a == Idle }

  predicate Posts(a: Action) { a == Post || a == PostLast }

  // ----- retransmission of one entry

  /** The block of an unacknowledged request that has been scanned n times. */
  function Aged(n: nat): Poll
    requires n <= 301
  {
    if n == 0 then Poll(0, 0, 1, false) else Poll(5 * ((n - 1) % 100), 1 + (n - 1) / 100, 1, false)
  }

  /** How often a request has been posted in its first n scans. */
  function PostCount(n: nat): nat {
    (if n >= 1 then 1 else 0) + (if n >= 101 then 1 else 0) + (if n >= 201 then 1 else 0)
  }

  /** Without an acknowledgement: posted on scans 1, 101 and 201, dropped on scan 301, otherwise only aged. */
  lemma Retransmission(n: nat)
    requires n <= 300
    ensures var s := Scan(Aged(n));
            if n == 300 then s == Scanned(ZERO, Recycle)
            else s.poll == Aged(n + 1) && s.action == (if n in {0, 100, 200} then Post else Idle)
    ensures Aged(n).times == PostCount(n) <= 3 && Aged(n).delay < 500 && Aged(n).delay % 5 == 0
  {
  }

  /** Once acknowledged after a first sending, an entry is recycled by its next scan. */
  lemma AcknowledgedIsDropped(p: Poll)
    requires p.kind == 1 && p.times > 0 && p.freeFlag
    ensures Scan(p) == Scanned(ZERO, Recycle)
  {
  }

  // ----- states and steps

  datatype State = State(
    free: seq<Id>,         // pool, first in first out
    held: set<Id>,         // with frame builders
    list: seq<Id>,         // g_uart_send_list
    mail: seq<Id>,         // mailbox of the send task
    poll: seq<Poll>,       // poll block of every buffer
    sn: seq<byte>,         // sequence number in every buffer's frame
    cursor: Option<nat>,   // position of the running scan, which holds the mutex
    wire: seq<Id>,         // history: buffers written to the line
    age: seq<nat>,         // history: scans of every buffer since it was enqueued
    posts: seq<nat>)       // history: postings of every buffer since it was enqueued

  datatype Step =
    | Produce
    | Enqueue(id: Id, kind: byte, sn: byte)
    | BeginScan
    | PollEntry
    | EndScan
    | Send
    | Ack(sn: byte)

  predicate Sized(s: State) {
    |s.sn| == |s.poll| && |s.age| == |s.poll| && |s.posts| == |s.poll| &&
    (forall i :: 0 <= i < |s.list| ==> s.list[i] < |s.poll|) &&
    (forall i :: 0 <= i < |s.mail| ==> s.mail[i] < |s.poll|)
  }

  /** Position of the first entry with this sequence number, or the length of the list. */
  function FirstWith(s: State, list: seq<Id>, sn: byte): (k: nat)
    requires Sized(s) && forall i :: 0 <= i < |list| ==> list[i] < |s.poll|
    ensures k <= |list|
    ensures k < |list| ==> s.sn[list[k]] == sn
    ensures forall i :: 0 <= i < k ==> s.sn[list[i]] != sn
  {
    if list == [] || s.sn[list[0]] == sn then 0 else 1 + FirstWith(s, list[1..], sn)
  }

  /**
   * When a step may be taken. The mutex keeps builders and acknowledgements out of a scan; the
   * send task, which has the highest priority, empties the mailbox before the poll task or the
   * receive task go on; an acknowledgement answers a request that has been sent.
   */
  predicate Enabled(s: State, step: Step)
    requires Sized(s)
  {
    match step
    case Produce => s.free != []
    case Enqueue(id, _, _) => id in s.held && id < |s.poll| && s.cursor == None
    case BeginScan => s.cursor == None
    case PollEntry => s.cursor.Some? && s.cursor.value < |s.list| && s.mail == []
    case EndScan => s.cursor.Some? && s.cursor.value >= |s.list|
    case Send => s.mail != []
    case Ack(sn) => s.cursor == None && s.mail == [] && AckGuard(s, sn)
  }

  predicate AckGuard(s: State, sn: byte)
    requires Sized(s)
  {
    var k := FirstWith(s, s.list, sn);
    k < |s.list| ==> !Unsent(s, s.list[k])
  }

  /** A request that has not been posted since it was enqueued. */
  predicate Unsent(s: State, id: Id)
    requires Sized(s) && id < |s.poll|
  {
    s.poll[id].kind == 1 && s.posts[id] == 0
  }

  /** A request whose counter says that it was never sent. */
  predicate NeverSent(p: Poll) { p.kind == 1 && p.times == 0 }

  /** uart_poll_tsk on the entry at the cursor. */
  function ScanAt(s: State, k: nat): State
    requires Sized(s) && k < |s.list|
  {
    var id := s.list[k];
    var r := Scan(s.poll[id]);
    s.(poll := s.poll[id := r.poll],
       list := if Stays(r.action) then s.list else Removed(s.list, k),
       mail := if Posts(r.action) then s.mail + [id] else s.mail,
       free := if r.action == Recycle then s.free + [id] else s.free,
       cursor := Some(if Stays(r.action) then k + 1 else k),
       age := s.age[id := s.age[id] + 1],
       posts := if Posts(r.action) then s.posts[id := s.posts[id] + 1] else s.posts)
  }

  /** uart_send_tsk on one message: the frame is written, and recycled if its flag is set. */
  function SendOne(s: State): State
    requires Sized(s) && s.mail != []
  {
    var id := s.mail[0];
    var t := s.(mail := s.mail[1..], wire := s.wire + [id]);
    if s.poll[id].freeFlag then t.(poll := s.poll[id := ZERO], free := s.free + [id]) else t
  }

  function AckAt(s: State, k: nat): State
    requires Sized(s) && k < |s.list|
  {
    var id := s.list[k];
    s.(poll := s.poll[id := s.poll[id].(freeFlag := true)])
  }

  /** The first entry with this sequence number, if any, gets its flag set. */
  function Acknowledged(s: State, sn: byte): State
    requires Sized(s)
  {
    var k := FirstWith(s, s.list, sn);
    if k < |s.list| then AckAt(s, k) else s
  }

  function Apply(s: State, step: Step): State
    requires Sized(s) && Enabled(s, step)
  {
    match step
    case Produce => s.(free := s.free[1..], held := s.held + {s.free[0]})
    case Enqueue(id, kind, sn) =>
      s.(held := s.held - {id}, list := s.list + [id],
         poll := s.poll[id := s.poll[id].(kind := kind)], sn := s.sn[id := sn],
         age := s.age[id := 0], posts := s.posts[id := 0])
    case BeginScan => s.(cursor := Some(0))
    case PollEntry => ScanAt(s, s.cursor.value)
    case EndScan => s.(cursor := None)
    case Send => SendOne(s)
    case Ack(sn) => Acknowledged(s, sn)
  }

  /** All buffers are free; `poll` is what malloc left in their blocks. */
  function Initial(poll: seq<Poll>, sn: seq<byte>, age: seq<nat>): State
    requires |sn| == |poll| && |age| == |poll|
  {
    State(seq(|poll|, i => i), {}, [], [], poll, sn, None, [], age, age)
  }

  // ----- the invariant

  predicate IsListed(s: State, id: Id) { id in s.list }

  /** Waiting in the mailbox for its final sending. */
  predicate IsLeaving(s: State, id: Id) { id in s.mail && id !in s.list }

  /** In how many of the four places a buffer is. */
  function Places(s: State, id: Id): nat {
    (if id in s.free then 1 else 0) + (if id in s.held then 1 else 0) +
    (if IsListed(s, id) then 1 else 0) + (if IsLeaving(s, id) then 1 else 0)
  }

  /** Every buffer of the pool is in exactly one place, and at most once in it. */
  ghost predicate Conserved(s: State) {
    NoDuplicates(s.free) && NoDuplicates(s.list) && NoDuplicates(s.mail) &&
    forall id: Id :: Places(s, id) == if id < |s.poll| then 1 else 0
  }

  /** The counter of sendings before it wraps around. */
  const LAST: u32 := 0xFFFF_FFFF

  /**
   * An entry that has never been sent is not marked as acknowledged, and one whose counter is
   * about to wrap around is.
   */
  predicate Safe(p: Poll) { (p.times == 0 ==> !p.freeFlag) && (p.times == LAST ==> p.freeFlag) }

  /** What conservation rests on. */
  ghost predicate Inv(s: State) {
    Sized(s) && Conserved(s) && |s.mail| <= 1 &&
    (s.cursor.Some? ==> s.cursor.value <= |s.list|) &&
    (forall id :: 0 <= id < |s.poll| && (id in s.free || id in s.held) ==> Safe(s.poll[id])) &&
    (forall id :: 0 <= id < |s.poll| && IsListed(s, id) && s.poll[id].kind == 1 ==>
      Safe(s.poll[id]) && (s.poll[id].times == 0 ==> s.posts[id] == 0)) &&
    (forall id :: 0 <= id < |s.poll| && id in s.mail ==>
      (IsListed(s, id) ==> s.poll[id].kind == 1 && s.poll[id].times > 0 && !s.poll[id].freeFlag) &&
      (!IsListed(s, id) ==> s.poll[id].freeFlag))
  }

  /** The block of a listed entry that was zero when it was enqueued. */
  predicate EntryOk(p: Poll, age: nat, posts: nat) {
    p.delay < 500 && p.delay % 5 == 0 && p.times <= 3 && (p.times == 0 ==> p.delay == 0) &&
    (p.kind == 1 ==> posts == p.times && (!p.freeFlag ==> age <= 300 && p == Aged(age))) &&
    (p.kind != 1 ==> p.times == 0 && posts == 0)
  }

  /** Blocks are zero whenever a frame builder gets them. */
  ghost predicate Clean(s: State)
    requires Sized(s)
  {
    (forall id :: 0 <= id < |s.poll| && (id in s.free || id in s.held) ==> s.poll[id] == ZERO) &&
    (forall id :: 0 <= id < |s.poll| && IsListed(s, id) ==> EntryOk(s.poll[id], s.age[id], s.posts[id]))
  }

  lemma InvSized(s: State)
    requires Inv(s)
    ensures Sized(s)
  {
  }

  lemma RemovedFacts(s: seq<Id>, k: nat)
    requires k < |s| && NoDuplicates(s)
    ensures NoDuplicates(Removed(s, k)) && s[k] !in Removed(s, k)
    ensures forall x :: x in s <==> x in Removed(s, k) || x == s[k]
  {
    var t := Removed(s, k);
    assert forall i :: 0 <= i < |t| ==> t[i] == (if i < k then s[i] else s[i + 1]);
    forall x | x in s ensures x in t || x == s[k] {
      var i :| 0 <= i < |s| && s[i] == x;
      if i < k { assert t[i] == x; } else if i > k { assert t[i - 1] == x; }
    }
  }

  lemma AppendFacts(s: seq<Id>, x: Id)
    requires NoDuplicates(s) && x !in s
    ensures NoDuplicates(s + [x]) && forall y :: y in s + [x] <==> y in s || y == x
  {
  }

  lemma TailFacts(s: seq<Id>)
    requires NoDuplicates(s) && s != []
    ensures NoDuplicates(s[1..]) && s[0] !in s[1..] && forall y :: y in s <==> y in s[1..] || y == s[0]
  {
    assert s == [s[0]] + s[1..];
  }

  lemma ProduceKeepsInv(s: State)
    requires Inv(s) && s.free != []
    ensures Inv(Apply(s, Produce))
  {
    TailFacts(s.free);
    var t := Apply(s, Produce);
    forall id: Id ensures Places(t, id) == Places(s, id) {
      assert Places(s, s.free[0]) <= 1 && Places(s, id) <= 1;
    }
  }

  lemma EnqueueKeepsInv(s: State, id: Id, kind: byte, sn: byte)
    requires Inv(s) && Enabled(s, Enqueue(id, kind, sn))
    ensures Inv(Apply(s, Enqueue(id, kind, sn)))
  {
    var t := Apply(s, Enqueue(id, kind, sn));
    assert Places(s, id) == 1;
    AppendFacts(s.list, id);
    forall x: Id ensures Places(t, x) == Places(s, x) {}
  }

  lemma SendKeepsInv(s: State)
    requires Inv(s) && s.mail != []
    ensures Inv(SendOne(s))
  {
    var id, t := s.mail[0], SendOne(s);
    assert s.mail == [id] && t.mail == [];
    assert Places(s, id) == 1;
    if s.poll[id].freeFlag {
      assert IsLeaving(s, id);
      AppendFacts(s.free, id);
    }
    forall x: Id ensures Places(t, x) == Places(s, x) {}
  }

  lemma AckAtKeepsInv(s: State, k: nat)
    requires Inv(s) && k < |s.list| && !NeverSent(s.poll[s.list[k]]) && s.list[k] !in s.mail
    ensures Inv(AckAt(s, k))
  {
    var id := s.list[k];
    assert IsListed(s, id) && Places(s, id) == 1;
    forall x: Id ensures Places(AckAt(s, k), x) == Places(s, x) {}
  }

  /** What a visit makes of an entry. */
  lemma EntryScanned(p: Poll)
    requires p.kind == 1 ==> Safe(p)
    ensures var r := Scan(p);
            (Stays(r.action) && r.poll.kind == 1 ==> Safe(r.poll) && r.poll.times > 0) &&
            (r.action == Post ==> r.poll.kind == 1 && r.poll.times > 0 && !r.poll.freeFlag) &&
            (r.action == PostLast ==> r.poll.freeFlag) && (r.action == Recycle ==> r.poll == ZERO)
  {
  }

  lemma ScanKeepsPlaces(s: State, k: nat)
    requires Inv(s) && s.mail == [] && k < |s.list|
    ensures Conserved(ScanAt(s, k))
  {
    hide Scan, Safe;
    var id, t := s.list[k], ScanAt(s, k);
    var r := Scan(s.poll[id]);
    assert IsListed(s, id) && Places(s, id) == 1;
    if !Stays(r.action) { RemovedFacts(s.list, k); }
    if r.action == Recycle { AppendFacts(s.free, id); }
    assert t.mail == (if Posts(r.action) then [id] else []);
    forall x: Id ensures Places(t, x) == Places(s, x) {}
  }

  lemma ScanKeepsInv(s: State, k: nat)
    requires Inv(s) && s.mail == [] && k < |s.list|
    ensures Inv(ScanAt(s, k))
  {
    hide Scan, Conserved, Removed;
    var id, t := s.list[k], ScanAt(s, k);
    var r := Scan(s.poll[id]);
    assert IsListed(s, id);
    EntryScanned(s.poll[id]);
    ScanKeepsPlaces(s, k);
    ListedOnce(s, k);
    assert t.mail == (if Posts(r.action) then [id] else []);
  }

  lemma ListedOnce(s: State, k: nat)
    requires Conserved(s) && k < |s.list|
    ensures var id := s.list[k]; var t := Removed(s.list, k);
            id !in s.free && id !in s.held && |t| == |s.list| - 1 && id !in t &&
            (forall i :: 0 <= i < |t| ==> t[i] in s.list) && forall x :: x in s.list <==> x in t || x == id
  {
    assert IsListed(s, s.list[k]) && Places(s, s.list[k]) <= 1;
    RemovedFacts(s.list, k);
    RemovedAt(s.list, k);
  }

  /** Every step keeps the invariant. */
  lemma StepKeepsInv(s: State, step: Step)
    requires Inv(s) && Enabled(s, step)
    ensures Inv(Apply(s, step))
  {
    match step
    case Produce => ProduceKeepsInv(s);
    case Enqueue(id, kind, sn) => EnqueueKeepsInv(s, id, kind, sn);
    case PollEntry => ScanKeepsInv(s, s.cursor.value);
    case Send => SendKeepsInv(s);
    case Ack(sn) =>
      var k := FirstWith(s, s.list, sn);
      if k < |s.list| {
        CounterOrHistory(s, k);
        AckAtKeepsInv(s, k);
      }
    case _ =>
      forall x: Id ensures Places(Apply(s, step), x) == Places(s, x) {}
  }

  // ----- zero blocks

  lemma EntryAges(p: Poll, age: nat, posts: nat)
    requires EntryOk(p, age, posts)
    ensures var r := Scan(p);
            (Stays(r.action) ==> EntryOk(r.poll, age + 1, if r.action == Post then posts + 1 else posts)) &&
            (r.action == Recycle ==> r.poll == ZERO)
  {
    if p.kind == 1 && !p.freeFlag { Retransmission(age); }
  }

  lemma ScanKeepsClean(s: State, k: nat)
    requires Inv(s) && Clean(s) && s.mail == [] && k < |s.list|
    ensures Sized(ScanAt(s, k)) && Clean(ScanAt(s, k))
  {
    hide Scan, EntryOk, Conserved, Removed, Safe;
    var id, t := s.list[k], ScanAt(s, k);
    assert IsListed(s, id);
    EntryAges(s.poll[id], s.age[id], s.posts[id]);
    ListedOnce(s, k);
  }

  lemma SendKeepsClean(s: State)
    requires Inv(s) && Clean(s) && s.mail != []
    ensures Sized(SendOne(s)) && Clean(SendOne(s))
  {
    hide EntryOk;
    var id := s.mail[0];
    assert id in s.mail && Places(s, id) <= 1;
  }

  lemma StepKeepsClean(s: State, step: Step)
    requires Inv(s) && Clean(s) && Enabled(s, step)
    ensures Inv(Apply(s, step)) && Clean(Apply(s, step))
  {
    StepKeepsInv(s, step);
    match step
    case Produce => TailFacts(s.free);
    case Enqueue(id, kind, sn) => assert Places(s, id) == 1;
    case PollEntry => ScanKeepsClean(s, s.cursor.value);
    case Send => SendKeepsClean(s);
    case Ack(sn) =>
      var k := FirstWith(s, s.list, sn);
      if k < |s.list| { assert IsListed(s, s.list[k]) && Places(s, s.list[k]) <= 1; }
    case _ =>
  }

  // ----- acknowledgements outside the guard

  function Drain(s: State): (t: State)
    requires Sized(s)
    ensures Sized(t) && t.list == s.list
  {
    if s.mail == [] then s else SendOne(s)
  }

  /** The entry at k is acknowledged; the mailbox is drained; the entry is scanned; the mailbox is drained again. */
  function AckThenScan(s: State, k: nat): State
    requires Sized(s) && k < |s.list|
  {
    Drain(ScanAt(Drain(AckAt(s, k)), k))
  }

  lemma DrainKeepsInv(s: State)
    requires Inv(s)
    ensures Inv(Drain(s)) && Drain(s).mail == [] && Drain(s).list == s.list
  {
    if s.mail != [] { SendKeepsInv(s); }
  }

  lemma InTwoPlaces(s: State, id: Id)
    requires id in s.free && IsListed(s, id)
    ensures !Conserved(s)
  {
    assert Places(s, id) >= 2;
  }

  lemma InPoolTwice(s: State, free: seq<Id>, id: Id)
    requires s.free == free + [id] + [id]
    ensures !Conserved(s)
  {
    assert s.free[|free|] == s.free[|free| + 1];
  }

  lemma BeforeSending(s: State, k: nat)
    requires Inv(s) && k < |s.list|
    ensures Sized(s) && |s.mail| <= 1 && (NeverSent(s.poll[s.list[k]]) ==> s.list[k] !in s.mail)
    ensures s.list[k] in s.mail ==> s.mail == [s.list[k]] && s.poll[s.list[k]].kind == 1 && s.poll[s.list[k]].times > 0
  {
    assert IsListed(s, s.list[k]);
  }

  /** An acknowledged request that was never sent is posted once more, and recycled while it stays in the list. */
  lemma NeverSentIsLost(s: State, k: nat)
    requires Inv(s) && k < |s.list| && NeverSent(s.poll[s.list[k]])
    ensures !Conserved(AckThenScan(s, k))
  {
    BeforeSending(s, k);
    hide Inv, Conserved, Places;
    var id := s.list[k];
    var u := Drain(AckAt(s, k));
    assert u.mail == [] && u.list == s.list && u.poll[id] == s.poll[id].(freeFlag := true);
    var v := ScanAt(u, k);
    assert v.mail == [id] && v.list == s.list && v.poll[id].freeFlag;
    var t := Drain(v);
    assert t.free == v.free + [id] && t.free[|v.free|] == id && t.list == s.list;
    InTwoPlaces(t, id);
  }

  /** So is one whose last posting is still in the mailbox: it is recycled twice. */
  lemma PendingIsLost(s: State, k: nat)
    requires Inv(s) && k < |s.list| && s.list[k] in s.mail
    ensures !Conserved(AckThenScan(s, k))
  {
    BeforeSending(s, k);
    hide Inv, Conserved, Places;
    var id := s.list[k];
    var u := Drain(AckAt(s, k));
    assert u.free == s.free + [id] && u.list == s.list && u.poll[id] == ZERO && u.mail == [];
    var v := ScanAt(u, k);
    assert v.mail == [id] && v.free == u.free && v.poll[id].freeFlag;
    InPoolTwice(Drain(v), s.free, id);
  }

  /** The history says at least what the counter says, and the same if blocks start out zero. */
  lemma CounterOrHistory(s: State, k: nat)
    requires Inv(s) && k < |s.list|
    ensures NeverSent(s.poll[s.list[k]]) ==> Unsent(s, s.list[k])
    ensures Clean(s) ==> (NeverSent(s.poll[s.list[k]]) <==> Unsent(s, s.list[k]))
  {
    assert IsListed(s, s.list[k]);
  }

  /**
   * The two guards on acknowledgements are exact. Acknowledge any entry in any good state:
   * once it has been scanned and the mailbox drained, the buffers are conserved if and only if
   * the entry was not a request that was never sent, and had no posting left in the mailbox.
   */
  lemma AckGuardExact(s: State, k: nat)
    requires Inv(s) && k < |s.list|
    ensures Conserved(AckThenScan(s, k)) <==> !NeverSent(s.poll[s.list[k]]) && s.list[k] !in s.mail
    ensures NeverSent(s.poll[s.list[k]]) ==> Unsent(s, s.list[k])
    ensures Clean(s) ==> (NeverSent(s.poll[s.list[k]]) <==> Unsent(s, s.list[k]))
  {
    CounterOrHistory(s, k);
    if NeverSent(s.poll[s.list[k]]) {
      NeverSentIsLost(s, k);
    } else if s.list[k] in s.mail {
      PendingIsLost(s, k);
    } else {
      AckAtKeepsInv(s, k);
      DrainKeepsInv(AckAt(s, k));
      var u := Drain(AckAt(s, k));
      ScanKeepsInv(u, k);
      DrainKeepsInv(ScanAt(u, k));
    }
  }
}
