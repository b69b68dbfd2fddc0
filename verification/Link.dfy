/**
 * The UART send side on the heap: buffers and their list nodes, the pool, the circular send
 * list and the mailbox. Every operation is one step, or a few, of the transition system.
 */
module Link {
  import opened Bytes
  import opened Sequences
  import opened List
  import opened Frame
  import opened LinkModel
  import opened ScanModel
  import opened Runs

  /** uart_send_format_t */
  class SendFormat {
    const list: ListHead
    const cmd: array<byte>
    var buf: Buffer?
    var delay: u32
    var times: u32
    var kind: u32
    var freeFlag: bool

    function Block(): Poll
      reads this`delay, this`times, this`kind, this`freeFlag
    {
      Poll(delay, times, kind, freeFlag)
    }

    /** Memory as malloc returns it: `p` is what it happens to hold in the poll block. */
    constructor (p: Poll)
      ensures fresh(list) && fresh(cmd) && cmd.Length == SIZE && Block() == p
    {
      list := new ListHead();
      cmd := new byte[SIZE];
      buf, delay, times, kind, freeFlag := null, p.delay, p.times, p.kind, p.freeFlag;
    }

    /** memset of the poll block */
    method Clear()
      modifies this`delay, this`times, this`kind, this`freeFlag
      ensures Block() == ZERO
    {
      delay, times, kind, freeFlag := 0, 0, 0, false;
    }
  }

  class Buffer {
    const memory: SendFormat
    const node: ListHead

    constructor (p: Poll)
      ensures fresh(memory) && fresh(memory.list) && fresh(memory.cmd) && fresh(node)
      ensures memory.cmd.Length == SIZE && memory.Block() == p && node != memory.list
    {
      memory := new SendFormat(p);
      node := new ListHead();
    }
  }

  /** uart_cmd_list_t, without the callback */
  datatype Command = Command(cmdword: byte, ackword: byte)

  /** The first row for a command. */
  function Lookup(table: seq<Command>, cmdword: byte): Option<Command> {
    if table == [] then None else if table[0].cmdword == cmdword then Some(table[0]) else Lookup(table[1..], cmdword)
  }

  lemma {:induction false} LookupIs(table: seq<Command>, cmdword: byte, k: nat)
    requires k <= |table| && forall i :: 0 <= i < k ==> table[i].cmdword != cmdword
    requires k < |table| ==> table[k].cmdword == cmdword
    ensures Lookup(table, cmdword) == if k < |table| then Some(table[k]) else None
  {
    if k > 0 { LookupIs(table[1..], cmdword, k - 1); }
  }

  datatype Reacting = Ignore | Respond(ackword: byte) | Acknowledge(sn: byte)

  /** What a delivered frame asks for. */
  function Reaction(f: seq<byte>, table: seq<Command>): Reacting
    requires Complete(f)
  {
    if !Accepted(f) then Ignore
    else match Lookup(table, f[6])
      case None => Ignore
      case Some(row) => if row.ackword != 0 then Respond(row.ackword) else Acknowledge(f[4])
  }

  datatype Mail = Mail(p: SendFormat, dataLen: nat)

  /** No two buffers share anything, and the head of a list is none of their nodes. */
  ghost predicate Separate(pool: seq<Buffer>, head: ListHead) {
    (forall i :: 0 <= i < |pool| ==>
      pool[i].memory.cmd.Length == SIZE && pool[i].node != head && pool[i].memory.list != head) &&
    (forall i, j :: 0 <= i < |pool| && 0 <= j < |pool| ==> pool[i].node != pool[j].memory.list) &&
    forall i, j :: 0 <= i < j < |pool| ==>
      pool[i].node != pool[j].node && pool[i].memory != pool[j].memory &&
      pool[i].memory.list != pool[j].memory.list && pool[i].memory.cmd != pool[j].memory.cmd
  }

  ghost function NodesOf(pool: seq<Buffer>): seq<ListHead> { seq(|pool|, i requires 0 <= i < |pool| => pool[i].node) }

  lemma NodesOfMore(pool: seq<Buffer>, b: Buffer)
    ensures NodesOf(pool + [b]) == NodesOf(pool) + [b.node]
  {
  }

  /** A buffer as the factory leaves it: the node knows it, and the block is as it was allocated. */
  ghost predicate Made(b: Buffer, p: Poll)
    reads b.node, b.memory
  {
    b.node.owner == b && b.memory.Block() == p
  }

  /** One turn of create_buf_factory. */
  method AddBuffer(head: ListHead, pool: seq<Buffer>, p: Poll) returns (b: Buffer)
    requires Separate(pool, head) && Ring(head, NodesOf(pool))
    modifies head`next, head`prev, NodesOf(pool)`next, NodesOf(pool)`prev
    ensures Separate(pool + [b], head) && Ring(head, NodesOf(pool + [b])) && Made(b, p)
    ensures fresh(b.node) && fresh(b.memory) && fresh(b.memory.list) && fresh(b.memory.cmd) &&
            b.memory.cmd.Length == SIZE
  {
    hide Ring;
    b := new Buffer(p);
    b.node.owner := b;
    ListAddTail(b.node, head, NodesOf(pool));
    NodesOfMore(pool, b);
  }

  /** create_buf_factory: all buffers are in the list, in order, with whatever the new memory holds. */
  method CreateBufFactory(garbage: seq<Poll>) returns (pool: seq<Buffer>, head: ListHead, ghost sn: seq<byte>)
    ensures |pool| == |sn| == |garbage| && Separate(pool, head) && Ring(head, NodesOf(pool)) && fresh(head)
    ensures forall i :: 0 <= i < |pool| ==> Made(pool[i], garbage[i]) && pool[i].memory.cmd[4] == sn[i]
    ensures forall i :: 0 <= i < |pool| ==>
      fresh(pool[i].node) && fresh(pool[i].memory) && fresh(pool[i].memory.list) && fresh(pool[i].memory.cmd)
  {
    head := new ListHead();
    InitListHead(head);
    pool, sn := [], [];
    assert NodesOf(pool) == [];
    hide Ring;
    for i := 0 to |garbage|
      invariant |pool| == |sn| == i && Separate(pool, head) && Ring(head, NodesOf(pool)) && fresh(head)
      invariant forall k :: 0 <= k < i ==> Made(pool[k], garbage[k]) && pool[k].memory.cmd[4] == sn[k]
      invariant forall k :: 0 <= k < i ==>
        fresh(pool[k].node) && fresh(pool[k].memory) && fresh(pool[k].memory.list) && fresh(pool[k].memory.cmd)
    {
      var b := AddBuffer(head, pool, garbage[i]);
      pool, sn := pool + [b], sn + [b.memory.cmd[4]];
    }
  }

  class System {
    const pool: seq<Buffer>
    const freeHead: ListHead
    const sendHead: ListHead
    var mailbox: seq<Mail>
    var sendSn: byte
    var line: seq<byte>
    ghost var s: State

    // ----- the objects of the pool

    ghost predicate InPool(ids: seq<Id>) { forall i :: 0 <= i < |ids| ==> ids[i] < |pool| }

    ghost function Nodes(ids: seq<Id>): seq<ListHead>
      requires InPool(ids)
    {
      seq(|ids|, i requires 0 <= i < |ids| => pool[ids[i]].node)
    }

    ghost function Entries(ids: seq<Id>): seq<ListHead>
      requires InPool(ids)
    {
      seq(|ids|, i requires 0 <= i < |ids| => pool[ids[i]].memory.list)
    }

    ghost function FreeHeads(): set<object> { {freeHead} + set i | 0 <= i < |pool| :: pool[i].node }

    ghost function SendHeads(): set<object> { {sendHead} + set i | 0 <= i < |pool| :: pool[i].memory.list }

    ghost function Memories(): set<SendFormat> { set i | 0 <= i < |pool| :: pool[i].memory }

    ghost function Commands(): set<object> { set i | 0 <= i < |pool| :: pool[i].memory.cmd }

    ghost predicate Layout() {
      Separate(pool, freeHead) && Separate(pool, sendHead) && FreeHeads() !! SendHeads()
    }

    // ----- the state on the heap

    ghost predicate FreeSide(free: seq<Id>)
      reads FreeHeads()
    {
      InPool(free) && Ring(freeHead, Nodes(free)) && forall i :: 0 <= i < |pool| ==> pool[i].node.owner == pool[i]
    }

    ghost predicate SendSide(list: seq<Id>)
      reads SendHeads()
    {
      InPool(list) && Ring(sendHead, Entries(list)) &&
      forall i :: 0 <= i < |list| ==> pool[list[i]].memory.list.owner == pool[list[i]].memory
    }

    ghost predicate Blocks(poll: seq<Poll>)
      reads Memories()`delay, Memories()`times, Memories()`kind, Memories()`freeFlag
    {
      |poll| == |pool| && forall i :: 0 <= i < |pool| ==> pool[i].memory.Block() == poll[i]
    }

    ghost predicate Numbers(sn: seq<byte>)
      reads Commands()
    {
      |sn| == |pool| && forall i :: 0 <= i < |pool| ==>
        pool[i].memory.cmd.Length == SIZE && pool[i].memory.cmd[4] == sn[i]
    }

    /** A frame builder has filled buffer i. */
    ghost predicate Filled(i: Id)
      requires i < |pool|
      reads pool[i].memory`buf, pool[i].memory.cmd
    {
      var m := pool[i].memory;
      m.buf == pool[i] && m.cmd.Length == SIZE && Word(m.cmd[1], m.cmd[2]) + 4 <= SIZE
    }

    ghost predicate AllFilled(ids: seq<Id>)
      reads Memories()`buf, Commands()
    {
      InPool(ids) && forall i :: 0 <= i < |ids| ==> Filled(ids[i])
    }

    ghost predicate Mailed(mail: seq<Id>)
      reads this`mailbox, Commands()
    {
      InPool(mail) && |mailbox| == |mail| &&
      forall i :: 0 <= i < |mail| ==>
        var m := pool[mail[i]].memory;
        m.cmd.Length == SIZE && mailbox[i] == Mail(m, Word(m.cmd[1], m.cmd[2]) + 4)
    }

    ghost predicate Tied(t: State)
      reads this`mailbox, FreeHeads(), SendHeads(), Memories(), Commands()
    {
      |t.poll| == |pool| && FreeSide(t.free) && SendSide(t.list) && Blocks(t.poll) && Numbers(t.sn) &&
      AllFilled(t.list) && AllFilled(t.mail) && Mailed(t.mail)
    }

    /** The heap holds the state s. */
    ghost predicate Valid()
      reads this`s, this`mailbox, FreeHeads(), SendHeads(), Memories(), Commands()
    {
      Layout() && Sized(s) && Tied(s)
    }

    /** uart_context_init: all buffers are free. */
    constructor (garbage: seq<Poll>)
      ensures Valid() && |s.sn| == |s.age| == |garbage| && s == Initial(garbage, s.sn, s.age) && Conserved(s)
      ensures fresh(FreeHeads()) && fresh(SendHeads()) && fresh(Memories()) && fresh(Commands())
      ensures (AllSafe(garbage) ==> Inv(s)) && (AllZero(garbage) ==> Inv(s) && Clean(s))
    {
      var p, free, sn := CreateBufFactory(garbage);
      var send := new ListHead();
      InitListHead(send);
      pool, freeHead, sendHead := p, free, send;
      mailbox, sendSn, line := [], 0, [];
      s := Initial(garbage, sn, seq(|garbage|, _ => 0));
      new;
      hide Inv, Clean, Ring, Separate, Made, Sized, Conserved, System.Tied, System.Layout;
      InitiallyTied(garbage, sn);
      InitialInv(garbage, s.sn, s.age);
    }

    lemma InitiallyTied(garbage: seq<Poll>, sn: seq<byte>)
      requires |pool| == |sn| == |garbage| && mailbox == []
      requires Separate(pool, freeHead) && Ring(freeHead, NodesOf(pool)) && Ring(sendHead, []) && sendHead != freeHead
      requires forall i :: 0 <= i < |pool| ==>
        Made(pool[i], garbage[i]) && pool[i].memory.cmd[4] == sn[i] &&
        sendHead != pool[i].node && sendHead != pool[i].memory.list
      ensures var t := Initial(garbage, sn, seq(|pool|, _ => 0)); Layout() && Sized(t) && Tied(t)
    {
      hide Ring;
      assert Nodes(seq(|pool|, i => i)) == NodesOf(pool) && Entries([]) == [];
    }

    // ----- facts about the layout

    lemma Territories()
      requires Layout()
      ensures FreeHeads() !! SendHeads() && FreeHeads() !! Memories() && FreeHeads() !! Commands()
      ensures SendHeads() !! Memories() && SendHeads() !! Commands() && Memories() !! Commands()
      ensures forall x :: x in FreeHeads() ==> allocated(x)
      ensures forall x :: x in SendHeads() ==> allocated(x)
      ensures forall x :: x in Memories() ==> allocated(x)
      ensures forall x :: x in Commands() ==> allocated(x)
      ensures {this} !! FreeHeads() && {this} !! SendHeads() && {this} !! Memories() && {this} !! Commands()
    {
    }

    lemma Objects(i: Id)
      requires i < |pool|
      ensures pool[i].node in FreeHeads() && pool[i].memory.list in SendHeads() && pool[i].memory in Memories() &&
              pool[i].memory.cmd in Commands()
    {
    }

    // ----- the pool

    /** Takes the first node from the list of the pool. */
    method TakeFirst(ghost free: seq<Id>) returns (buf: Buffer)
      requires Layout() && FreeSide(free) && free != []
      modifies FreeHeads()
      ensures FreeSide(free[1..]) && buf == pool[free[0]]
    {
      hide Separate, System.SendHeads;
      Ends(freeHead, Nodes(free));
      var node := freeHead.next;
      buf := node.owner as Buffer;
      ListDel(node, freeHead, Nodes(free), 0);
      assert Removed(Nodes(free), 0) == Nodes(free[1..]);
    }

    lemma NodeApart(free: seq<Id>, id: Id)
      requires Layout() && InPool(free) && id < |pool| && id !in free
      ensures pool[id].node !in Nodes(free) && pool[id].node != freeHead &&
              Nodes(free + [id]) == Nodes(free) + [pool[id].node]
    {
    }

    method PutLast(buf: Buffer, ghost free: seq<Id>, ghost id: Id)
      requires Layout() && FreeSide(free) && id < |pool| && buf == pool[id] && id !in free
      modifies FreeHeads()
      ensures FreeSide(free + [id])
    {
      hide Separate, System.SendHeads;
      NodeApart(free, id);
      ListAddTail(buf.node, freeHead, Nodes(free));
    }

    /** buf_factory_produce */
    method Produce() returns (buf: Buffer)
      requires Valid() && s.free != []
      modifies this`s, FreeHeads()
      ensures Valid() && s == Apply(old(s), Step.Produce) && buf == pool[old(s).free[0]]
    {
      hide System.FreeHeads, System.SendHeads, System.Memories, System.Commands, System.Layout;
      hide System.FreeSide, System.SendSide, System.Blocks, System.Numbers, System.AllFilled, System.Mailed;
      Territories();
      buf := TakeFirst(s.free);
      s := Apply(s, Step.Produce);
    }

    /** buf_factory_recycle */
    method Recycle(buf: Buffer, ghost id: Id)
      requires Valid() && id < |pool| && buf == pool[id] && id !in s.free
      modifies this`s, FreeHeads()
      ensures Valid() && s == old(s).(free := old(s).free + [id])
    {
      hide System.FreeHeads, System.SendHeads, System.Memories, System.Commands, System.Layout;
      hide System.FreeSide, System.SendSide, System.Blocks, System.Numbers, System.AllFilled, System.Mailed;
      Territories();
      PutLast(buf, s.free, id);
      s := s.(free := s.free + [id]);
    }

    // ----- the send list

    lemma EntryApart(list: seq<Id>, id: Id)
      requires Layout() && InPool(list) && id < |pool| && id !in list
      ensures pool[id].memory.list !in Entries(list) && pool[id].memory.list != sendHead
      ensures Entries(list + [id]) == Entries(list) + [pool[id].memory.list]
    {
    }

    /** Where a walk along the send list stands at position k. */
    ghost function Place(list: seq<Id>, k: nat): ListHead {
      if k < |list| && list[k] < |pool| then pool[list[k]].memory.list else sendHead
    }

    lemma AtPlace(list: seq<Id>, k: nat)
      requires Layout() && SendSide(list) && k < |list|
      ensures var p := Place(list, k);
              p != sendHead && p.owner == pool[list[k]].memory && p.next == Place(list, k + 1)
    {
      hide Separate;
      Neighbours(sendHead, Entries(list), k);
    }

    lemma FirstPlace(list: seq<Id>)
      requires SendSide(list)
      ensures sendHead.next == Place(list, 0)
    {
      Ends(sendHead, Entries(list));
    }

    method AppendEntry(m: SendFormat, ghost list: seq<Id>, ghost id: Id)
      requires Layout() && SendSide(list) && id < |pool| && m == pool[id].memory && id !in list
      modifies SendHeads()
      ensures SendSide(list + [id])
    {
      hide Separate, System.FreeHeads;
      EntryApart(list, id);
      assert forall i :: 0 <= i < |list| ==> Entries(list)[i].owner == pool[list[i]].memory;
      m.list.owner := m;
      assert Ring(sendHead, Entries(list));
      assert forall i :: 0 <= i < |list| ==> Entries(list)[i].owner == pool[list[i]].memory;
      ListAddTail(m.list, sendHead, Entries(list));
    }

    /** p = p->next; list_del(p->prev); */
    method CutEntry(p: ListHead, ghost list: seq<Id>, ghost k: nat) returns (next: ListHead)
      requires Layout() && SendSide(list) && k < |list| && p == Place(list, k)
      modifies SendHeads()
      ensures SendSide(Removed(list, k)) && next == Place(Removed(list, k), k)
    {
      hide Separate, System.FreeHeads;
      AtPlace(list, k);
      BackAtPlace(list, k);
      next := p.next;
      ListDel(next.prev, sendHead, Entries(list), k);
      RemovedAt(list, k);
      assert Removed(Entries(list), k) == Entries(Removed(list, k));
    }

    lemma BackAtPlace(list: seq<Id>, k: nat)
      requires SendSide(list) && k < |list|
      ensures Place(list, k + 1).prev == Place(list, k)
    {
      assert Joined(Opened(sendHead, Entries(list)), k + 1);
    }

    lemma FewerFilled(list: seq<Id>, k: nat)
      requires AllFilled(list) && k < |list|
      ensures AllFilled(Removed(list, k)) && InPool(Removed(list, k))
    {
      RemovedAt(list, k);
    }

    /** The walk unlinks the entry it stands on. */
    method Unlink(p: ListHead, ghost k: nat) returns (next: ListHead)
      requires Valid() && k < |s.list| && p == Place(s.list, k)
      modifies this`s, SendHeads()
      ensures Valid() && s == old(s).(list := Removed(old(s).list, k)) && next == Place(s.list, k)
    {
      hide System.FreeHeads, System.SendHeads, System.Memories, System.Commands, System.Layout;
      hide System.FreeSide, System.SendSide, System.Blocks, System.Numbers, System.AllFilled, System.Mailed;
      Territories();
      next := CutEntry(p, s.list, k);
      FewerFilled(s.list, k);
      s := s.(list := Removed(s.list, k));
    }

    /** getresplen and mailbox_post for a filled buffer. */
    method Post(m: SendFormat, ghost id: Id)
      requires Valid() && id < |pool| && m == pool[id].memory && Filled(id)
      modifies this`s, this`mailbox
      ensures Valid() && s == old(s).(mail := old(s).mail + [id])
    {
      hide System.FreeHeads, System.SendHeads, System.Memories, System.Commands, System.Layout;
      hide System.FreeSide, System.SendSide, System.Blocks, System.Numbers;
      Territories();
      mailbox := mailbox + [Mail(m, Word(m.cmd[1], m.cmd[2]) + 4)];
      s := s.(mail := s.mail + [id]);
    }

    // ----- the poll task

    /** Buffer id has a new poll block, and everything else is as before. */
    twostate lemma Retied(id: Id)
      requires id < |pool| && old(Valid()) && mailbox == old(mailbox)
      requires unchanged(FreeHeads()) && unchanged(SendHeads()) && unchanged(Commands()) &&
               unchanged(Memories() - {pool[id].memory})
      requires pool[id].memory.buf == old(pool[id].memory.buf)
      ensures var t := old(s).(poll := old(s).poll[id := pool[id].memory.Block()]);
              Layout() && Sized(t) && Tied(t)
    {
      Objects(id);
      Territories();
      hide System.FreeSide, System.SendSide, System.Numbers, System.AllFilled, System.Mailed;
      hide System.FreeHeads, System.SendHeads, System.Commands;
      assert FreeSide(old(s).free);
    }

    /** Sets the flag of an entry. */
    method Flag(m: SendFormat, ghost id: Id)
      requires Valid() && id < |pool| && m == pool[id].memory
      modifies this`s, m`freeFlag
      ensures Valid() && s == old(s).(poll := old(s).poll[id := old(s).poll[id].(freeFlag := true)])
    {
      hide System.FreeHeads, System.SendHeads, System.Memories, System.Commands, System.Layout;
      hide System.FreeSide, System.SendSide, System.Numbers, System.AllFilled, System.Mailed;
      Territories();
      Objects(id);
      m.freeFlag := true;
      Retied(id);
      s := s.(poll := s.poll[id := m.Block()]);
    }

    /** memset of a poll block */
    method Reset(m: SendFormat, ghost id: Id)
      requires Valid() && id < |pool| && m == pool[id].memory
      modifies this`s, m`delay, m`times, m`kind, m`freeFlag
      ensures Valid() && s == old(s).(poll := old(s).poll[id := ZERO])
    {
      hide System.FreeHeads, System.SendHeads, System.Memories, System.Commands, System.Layout;
      hide System.FreeSide, System.SendSide, System.Numbers, System.AllFilled, System.Mailed;
      Territories();
      Objects(id);
      m.Clear();
      Retied(id);
      s := s.(poll := s.poll[id := ZERO]);
    }

    /** Counts one more scan of 5 ms, or one more sending. */
    method Count(m: SendFormat, delay: u32, times: u32, ghost id: Id)
      requires Valid() && id < |pool| && m == pool[id].memory
      modifies this`s, m`delay, m`times
      ensures Valid() && s == old(s).(poll := old(s).poll[id := old(s).poll[id].(delay := delay, times := times)])
      ensures m.delay == delay && m.times == times
    {
      hide System.FreeHeads, System.SendHeads, System.Memories, System.Commands, System.Layout;
      hide System.FreeSide, System.SendSide, System.Numbers, System.AllFilled, System.Mailed;
      Territories();
      Objects(id);
      m.delay, m.times := delay, times;
      Retied(id);
      s := s.(poll := s.poll[id := m.Block()]);
    }

    /** What the heap shows of the entry at position k. */
    lemma Entry(k: nat)
      requires Valid() && k < |s.list|
      ensures var id := s.list[k]; var p := Place(s.list, k);
              id < |pool| && Filled(id) && pool[id].memory.Block() == s.poll[id] && p != sendHead &&
              p.owner == pool[id].memory && pool[id].memory.buf == pool[id] && p.next == Place(s.list, k + 1)
    {
      hide Separate, System.FreeSide, System.Mailed, System.Numbers;
      AtPlace(s.list, k);
    }

    /** The entry leaves the list and its buffer goes back to the pool. */
    method Drop(p: ListHead, m: SendFormat, ghost k: nat) returns (next: ListHead)
      requires Valid() && k < |s.list| && p == Place(s.list, k) && m == pool[s.list[k]].memory && s.list[k] !in s.free
      modifies this`s, SendHeads(), FreeHeads(), m`delay, m`times, m`kind, m`freeFlag
      ensures var id := old(s).list[k];
              s == old(s).(list := Removed(old(s).list, k), poll := old(s).poll[id := ZERO], free := old(s).free + [id])
      ensures Valid() && next == Place(s.list, k)
    {
      hide System.FreeHeads, System.SendHeads, System.Memories, System.Commands, System.Layout;
      hide System.FreeSide, System.SendSide, System.Blocks, System.Numbers, System.AllFilled, System.Mailed;
      hide System.Tied;
      ghost var id := s.list[k];
      Entry(k);
      Territories();
      Objects(id);
      next := Unlink(p, k);
      assert m.buf == pool[id];
      Reset(m, id);
      Recycle(m.buf, id);
    }

    /** What a scan does to the state, its position and the history apart. */
    ghost function Visited(t: State, k: nat): State
      requires Sized(t) && k < |t.list|
    {
      ScanAt(t, k).(cursor := t.cursor, age := t.age, posts := t.posts)
    }

    /** The branch of uart_poll_tsk for responses. */
    method ScanResponse(p: ListHead, m: SendFormat, ghost k: nat) returns (next: ListHead)
      requires Valid() && k < |s.list| && p == Place(s.list, k) && m == pool[s.list[k]].memory && m.kind == 0
      modifies this`s, this`mailbox, SendHeads(), m`freeFlag
      ensures Valid() && s == Visited(old(s), k) && next == Place(s.list, k)
    {
      hide System.FreeHeads, System.SendHeads, System.Memories, System.Commands, System.Layout;
      hide System.FreeSide, System.SendSide, System.Blocks, System.Numbers, System.AllFilled, System.Mailed;
      hide System.Tied;
      ghost var id := s.list[k];
      Entry(k);
      Territories();
      Objects(id);
      Flag(m, id);
      Post(m, id);
      next := Unlink(p, k);
    }

    /** The branch of uart_poll_tsk for requests. */
    method ScanRequest(p: ListHead, m: SendFormat, ghost k: nat) returns (next: ListHead)
      requires Valid() && k < |s.list| && p == Place(s.list, k) && m == pool[s.list[k]].memory && m.kind == 1
      requires s.list[k] !in s.free
      modifies this`s, this`mailbox, SendHeads(), FreeHeads(), m`delay, m`times, m`kind, m`freeFlag
      ensures Valid() && s == Visited(old(s), k)
      ensures next == Place(s.list, if Stays(Scan(old(s).poll[old(s).list[k]]).action) then k + 1 else k)
    {
      hide System.FreeHeads, System.SendHeads, System.Memories, System.Commands, System.Layout;
      hide System.FreeSide, System.SendSide, System.Blocks, System.Numbers, System.AllFilled, System.Mailed;
      hide System.Tied;
      ghost var id := s.list[k];
      Entry(k);
      Territories();
      Objects(id);
      if m.times == 0 {
        Post(m, id);
        Count(m, m.delay, Plus32(m.times, 1), id);
      } else {
        if m.freeFlag {
          next := Drop(p, m, k);
          return;
        }
        Count(m, Plus32(m.delay, 5), m.times, id);
        if m.delay >= 500 {
          Count(m, 0, Plus32(m.times, 1), id);
          if m.times > 3 {
            next := Drop(p, m, k);
            assert s.poll == old(s).poll[id := ZERO];
            return;
          }
          Post(m, id);
        }
      }
      assert s.poll == old(s).poll[id := Scan(old(s).poll[id]).poll];
      next := p.next;
    }

    lemma ListedIsNotFree(k: nat)
      requires Inv(s) && k < |s.list|
      ensures s.list[k] !in s.free && s.list[k] < |s.poll|
    {
      assert IsListed(s, s.list[k]) && Places(s, s.list[k]) <= 1;
    }

    /** The body of the loop of uart_poll_tsk on the entry at p. */
    method PollEntry(p: ListHead) returns (next: ListHead)
      requires Valid() && Inv(s) && Enabled(s, Step.PollEntry) && p == Place(s.list, s.cursor.value)
      modifies this`s, this`mailbox, SendHeads(), FreeHeads(), Memories()`delay
      modifies Memories()`times, Memories()`kind, Memories()`freeFlag
      ensures Valid() && s == Apply(old(s), Step.PollEntry)
      ensures s.cursor.value <= |s.list| && next == Place(s.list, s.cursor.value)
    {
      hide System.FreeHeads, System.SendHeads, System.Memories, System.Commands, System.Layout;
      hide System.FreeSide, System.SendSide, System.Blocks, System.Numbers, System.AllFilled, System.Mailed;
      hide System.Tied;
      hide Inv;
      ghost var k := s.cursor.value;
      ghost var id, t := s.list[k], s;
      Territories();
      ListedIsNotFree(k);
      Entry(k);
      Objects(id);
      var m := p.owner as SendFormat;
      if m.kind == 0 {
        next := ScanResponse(p, m, k);
      } else if m.kind == 1 {
        next := ScanRequest(p, m, k);
      } else {
        next := p.next;
        assert s.poll == s.poll[id := s.poll[id]];
      }
      Noted(s, ScanAt(t, k));
      s := ScanAt(t, k);
    }

    /** The scan position and the history are not on the heap. */
    lemma Noted(t: State, u: State)
      requires Valid() && t == s &&
               u == t.(held := u.held, cursor := u.cursor, wire := u.wire, age := u.age, posts := u.posts) && Sized(u)
      ensures Tied(u)
    {
    }

    /** The bytes of the frame in buffer id: as many as getresplen says. */
    ghost function FrameOf(id: Id): seq<byte>
      reads Commands()
    {
      if id >= |pool| then []
      else
        var cmd := pool[id].memory.cmd;
        if cmd.Length == SIZE && Word(cmd[1], cmd[2]) + 4 <= SIZE then cmd[..Word(cmd[1], cmd[2]) + 4] else []
    }

    ghost function FramesOf(ids: seq<Id>): seq<byte>
      reads Commands()
    {
      if ids == [] then [] else FramesOf(ids[..|ids| - 1]) + FrameOf(ids[|ids| - 1])
    }

    /** uart_send_tsk on one message. */
    method SendTask()
      requires Valid() && Inv(s) && s.mail != []
      modifies this`s, this`mailbox, this`line, FreeHeads(), Memories()`delay
      modifies Memories()`times, Memories()`kind, Memories()`freeFlag
      ensures Valid() && s == Apply(old(s), Step.Send)
      ensures line == old(line) + FrameOf(old(s).mail[0]) && Filled(old(s).mail[0])
    {
      hide System.FreeHeads, System.SendHeads, System.Memories, System.Commands, System.Layout;
      hide System.FreeSide, System.SendSide, System.Blocks, System.Numbers, System.AllFilled, System.Mailed;
      hide System.Tied;
      hide Inv;
      ghost var id := s.mail[0];
      Territories();
      MailIsNotFree();
      First();
      Objects(id);
      var msg := Pend();
      line := line + msg.p.cmd[..msg.dataLen];
      if msg.p.freeFlag {
        Reset(msg.p, id);
        Recycle(msg.p.buf, id);
      }
      Noted(s, s.(wire := s.wire + [id]));
      s := s.(wire := s.wire + [id]);
    }

    /** What the heap shows of the first message. */
    lemma First()
      requires Valid() && s.mail != []
      ensures |mailbox| == |s.mail| && s.mail[0] < |pool|
      ensures var m := pool[s.mail[0]].memory;
              Filled(s.mail[0]) && m.Block() == s.poll[s.mail[0]] && m.buf == pool[s.mail[0]] && m.cmd.Length == SIZE &&
              Word(m.cmd[1], m.cmd[2]) + 4 <= SIZE && mailbox[0] == Mail(m, Word(m.cmd[1], m.cmd[2]) + 4)
    {
      hide Separate, System.FreeSide, System.SendSide, System.Numbers;
    }

    lemma MailIsNotFree()
      requires Inv(s) && s.mail != []
      ensures s.mail[0] !in s.free && s.mail[0] < |s.poll|
    {
      var id := s.mail[0];
      assert IsListed(s, id) || IsLeaving(s, id);
      assert Places(s, id) <= 1;
    }

    /** Takes the first message out of the mailbox. */
    method Pend() returns (msg: Mail)
      requires Valid() && s.mail != []
      modifies this`s, this`mailbox
      ensures Valid() && s == old(s).(mail := old(s).mail[1..]) && msg == old(mailbox)[0]
    {
      hide System.FreeHeads, System.SendHeads, System.Memories, System.Commands, System.Layout;
      hide System.FreeSide, System.SendSide, System.Blocks, System.Numbers;
      Territories();
      msg, mailbox := mailbox[0], mailbox[1..];
      s := s.(mail := s.mail[1..]);
    }

    lemma Shown()
      requires Valid()
      ensures |mailbox| == |s.mail| && InPool(s.list) && sendHead.next == Place(s.list, 0)
      ensures forall k: nat :: k <= |s.list| ==> (Place(s.list, k) == sendHead <==> k == |s.list|)
    {
      hide Separate, System.FreeSide, System.Numbers;
      FirstPlace(s.list);
      forall k: nat | k < |s.list| ensures Place(s.list, k) != sendHead { AtPlace(s.list, k); }
    }

    /**
     * Since the history was `wire` and the output `before`, exactly the frames of the buffers written since
     * have been added.
     */
    ghost predicate Sent(wire: seq<Id>, before: seq<byte>)
      reads this`s, this`line, Commands()
    {
      |wire| <= |s.wire| && s.wire[..|wire|] == wire && line == before + FramesOf(s.wire[|wire|..])
    }

    lemma OneSent(wire: seq<Id>, id: Id, before: seq<byte>)
      requires s.wire == wire + [id] && line == before + FrameOf(id)
      ensures Sent(wire, before)
    {
      hide System.FrameOf;
      FramesStep([], id);
      assert s.wire[|wire|..] == [] + [id] && s.wire[..|wire|] == wire;
    }

    lemma NoneSent()
      ensures Sent(s.wire, line)
    {
    }

    /** One entry; the send task, which has the higher priority, runs as soon as a frame is posted. */
    method ScanOne(p: ListHead) returns (next: ListHead)
      requires Valid() && Inv(s) && Enabled(s, Step.PollEntry) && p == Place(s.list, s.cursor.value)
      modifies this`s, this`mailbox, this`line, SendHeads(), FreeHeads(), Memories()`delay
      modifies Memories()`times, Memories()`kind, Memories()`freeFlag
      ensures Valid() && Inv(s) && s.mail == [] && s == Onward(old(s))
      ensures Sent(old(s).wire, old(line))
      ensures s.cursor.Some? && s.cursor.value <= |s.list| && next == Place(s.list, s.cursor.value)
    {
      hide System.FreeHeads, System.SendHeads, System.Memories, System.Commands, System.Layout, System.Tied;
      hide System.Place;
      hide Inv, Scan, System.Sent, System.FrameOf, System.FramesOf;
      ghost var t := s;
      Territories();
      next := PollEntry(p);
      StepKeepsInv(t, Step.PollEntry);
      DrainKeepsInv(s);
      Shown();
      ghost var u := s;
      if mailbox != [] {
        ghost var before := line;
        SendTask();
        OneSent(t.wire, u.mail[0], before);
      } else {
        NoneSent();
      }
    }

    lemma FramesStep(ids: seq<Id>, id: Id)
      ensures FramesOf(ids + [id]) == FramesOf(ids) + FrameOf(id)
    {
      hide System.FrameOf;
      assert (ids + [id])[..|ids|] == ids;
    }

    lemma NoFrames()
      ensures FramesOf([]) == []
    {
    }

    lemma {:induction false} FramesJoin(a: seq<Id>, b: seq<Id>)
      ensures FramesOf(a + b) == FramesOf(a) + FramesOf(b)
    {
      hide System.FrameOf, System.FramesOf;
      if b == [] {
        NoFrames();
        assert a + b == a;
      } else {
        var n := |b| - 1;
        assert a + b == (a + b[..n]) + [b[n]] && b == b[..n] + [b[n]];
        FramesJoin(a, b[..n]);
        FramesStep(a + b[..n], b[n]);
        FramesStep(b[..n], b[n]);
      }
    }

    lemma SentMeans(wire: seq<Id>, before: seq<byte>)
      ensures Sent(wire, before) <==>
              |wire| <= |s.wire| && s.wire[..|wire|] == wire && line == before + FramesOf(s.wire[|wire|..])
      ensures line == before && wire == s.wire ==> Sent(wire, before)
    {
      hide System.FrameOf;
    }

    lemma SentOn(wire: seq<Id>, before: seq<byte>, later: seq<Id>, written: seq<byte>)
      requires |wire| <= |later| && later[..|wire|] == wire && written == before + FramesOf(later[|wire|..])
      requires Sent(later, written)
      ensures Sent(wire, before)
    {
      hide System.FrameOf, System.FramesOf;
      SplitAt(s.wire, later, wire);
      FramesJoin(later[|wire|..], s.wire[|later|..]);
    }

    /** The loop of uart_poll_tsk. */
    method WalkList()
      requires Valid() && Inv(s) && s.mail == [] && s.cursor == Some(0)
      modifies this`s, this`mailbox, this`line, SendHeads(), FreeHeads()
      modifies Memories()`delay, Memories()`times, Memories()`kind, Memories()`freeFlag
      ensures Valid() && Inv(s) && s.cursor == Some(|s.list|) && s == ScanFrom(old(s), 0) &&
              Sent(old(s).wire, old(line))
    {
      hide System.FreeHeads, System.SendHeads, System.Memories, System.Commands, System.Layout, System.Tied;
      hide System.Place, System.FrameOf, System.FramesOf, System.Sent, Inv, ScanFrom, ScanResult, Scan;
      Territories();
      Shown();
      var p := sendHead.next;
      SentMeans(s.wire, line);
      while p != sendHead
        invariant Valid() && Inv(s) && s.mail == [] && s.cursor.Some? && s.cursor.value <= |s.list|
        invariant InPool(s.list) && p == Place(s.list, s.cursor.value)
        invariant ScanFrom(s, s.cursor.value) == ScanFrom(old(s), 0)
        invariant Sent(old(s).wire, old(line))
        decreases if s.cursor.Some? then |s.list| - s.cursor.value else 0
      {
        Shown();
        ScanUnfolds(s);
        Territories();
        ghost var wire, written := s.wire, line;
        SentMeans(old(s).wire, old(line));
        p := ScanOne(p);
        SentOn(old(s).wire, old(line), wire, written);
      }
      Shown();
      ScanEnds(s);
    }

    /** One round of uart_poll_tsk. */
    method PollScan()
      requires Valid() && Inv(s) && Enabled(s, Step.BeginScan) && s.mail == []
      modifies this`s, this`mailbox, this`line, SendHeads(), FreeHeads()
      modifies Memories()`delay, Memories()`times, Memories()`kind, Memories()`freeFlag
      ensures Valid() && Inv(s) && s == ScanFrom(Apply(old(s), Step.BeginScan), 0).(cursor := None)
      ensures ScanResult(old(s), 0, s)
      ensures line == old(line) + FramesOf(s.wire[|old(s).wire|..])
    {
      hide System.FreeHeads, System.SendHeads, System.Memories, System.Commands, System.Layout, System.Tied;
      hide System.Place, System.FrameOf, System.FramesOf, System.Sent, Inv, ScanFrom, ScanResult, Scan;
      ghost var start := Apply(s, Step.BeginScan);
      StepKeepsInv(s, Step.BeginScan);
      Noted(s, start);
      Territories();
      s := start;
      WalkList();
      ScanEnds(s);
      Noted(s, s.(cursor := None));
      SentMeans(start.wire, old(line));
      ghost var t := s;
      s := s.(cursor := None);
      ScanRefines(start, 0);
      ResultIgnoresCursor(old(s), t);
    }

    // ----- acknowledgements

    /** The walk of uart_protocol_parse: the first entry with this sequence number gets its flag. */
    method Acknowledge(sn: byte)
      requires Valid()
      modifies this`s, Memories()`freeFlag
      ensures Valid() && s == Acknowledged(old(s), sn)
    {
      hide System.FreeHeads, System.SendHeads, System.Memories, System.Commands, System.Layout;
      hide System.FreeSide, System.SendSide, System.Blocks, System.Numbers, System.AllFilled, System.Mailed;
      hide System.Tied;
      Territories();
      Shown();
      var p := sendHead.next;
      ghost var k: nat := 0;
      while p != sendHead
        invariant Valid() && s == old(s) && InPool(s.list) && k <= |s.list| && p == Place(s.list, k)
        invariant forall i :: 0 <= i < k ==> s.sn[s.list[i]] != sn
        decreases |s.list| - k
      {
        Entry(k);
        EntryNumber(k);
        Objects(s.list[k]);
        var m := p.owner as SendFormat;
        if sn == m.cmd[4] {
          Flag(m, s.list[k]);
          return;
        }
        p, k := p.next, k + 1;
      }
    }

    lemma EntryNumber(k: nat)
      requires Valid() && k < |s.list|
      ensures s.list[k] < |pool| && pool[s.list[k]].memory.cmd.Length == SIZE &&
              pool[s.list[k]].memory.cmd[4] == s.sn[s.list[k]]
    {
      hide Separate, System.FreeSide, System.SendSide, System.Mailed, System.AllFilled;
    }

    // ----- frame builders

    /** Buffer id, which is in no queue, holds a new frame, and everything else is as before. */
    twostate lemma Rebuilt(id: Id)
      requires id < |pool| && old(Valid()) && mailbox == old(mailbox) && id !in old(s).list && id !in old(s).mail
      requires unchanged(FreeHeads()) && unchanged(SendHeads())
      requires unchanged(Memories() - {pool[id].memory}) && unchanged(Commands() - {pool[id].memory.cmd})
      requires pool[id].memory.Block() == old(pool[id].memory.Block()) && Filled(id)
      ensures var t := old(s).(sn := old(s).sn[id := pool[id].memory.cmd[4]]);
              Layout() && Sized(t) && Tied(t)
    {
      Territories();
      Objects(id);
      hide System.FreeSide, System.SendSide, System.FreeHeads, System.SendHeads;
    }

    lemma MoreFilled(list: seq<Id>, id: Id)
      requires AllFilled(list) && id < |pool| && Filled(id)
      ensures AllFilled(list + [id])
      ensures forall i :: 0 <= i < |list + [id]| ==> (list + [id])[i] < |pool|
    {
    }

    /** Poll type, owner, and list_add_tail: the end of both frame builders. */
    method Append(m: SendFormat, kind: byte, ghost id: Id)
      requires Valid() && id < |pool| && m == pool[id].memory && Filled(id) && id !in s.list
      modifies this`s, SendHeads(), m`kind
      ensures Valid()
      ensures s == old(s).(list := old(s).list + [id], poll := old(s).poll[id := old(s).poll[id].(kind := kind)])
    {
      hide System.FreeHeads, System.SendHeads, System.Memories, System.Commands, System.Layout;
      hide System.FreeSide, System.SendSide, System.Numbers, System.AllFilled, System.Mailed;
      Territories();
      Objects(id);
      assert m.Block() == s.poll[id];
      m.kind := kind;
      Retied(id);
      ghost var t := s.(poll := s.poll[id := m.Block()]);
      MoreFilled(t.list, id);
      AppendEntry(m, t.list, id);
      s := t.(list := t.list + [id]);
    }

    /** The frame in buffer id is the one of a message. */
    ghost predicate Holds(id: Id, msg: Message)
      requires id < |pool| && |msg.payload| <= 128
      reads pool[id].memory.cmd
    {
      var cmd := pool[id].memory.cmd;
      cmd.Length == SIZE && cmd[..|msg.payload| + 8] == [SENT] + Tail(msg)
    }

    lemma HeldFrame(id: Id, msg: Message)
      requires id < |pool| && |msg.payload| <= 128 && Holds(id, msg)
      ensures var cmd := pool[id].memory.cmd; Word(cmd[1], cmd[2]) == |msg.payload| + 4 && cmd[4] == msg.sn
    {
      hide Tail;
      var f := pool[id].memory.cmd[..|msg.payload| + 8];
      BuiltAccepted(SENT, msg);
      assert f[1] == pool[id].memory.cmd[1] && f[2] == pool[id].memory.cmd[2] && f[4] == pool[id].memory.cmd[4];
    }

    /** The part of uart_protocol_dispose that fills a buffer. */
    method FillCommand(buf: Buffer, msg: Message, data: array<byte>, ghost id: Id)
      requires Valid() && id < |pool| && buf == pool[id] && id !in s.list && id !in s.mail
      requires |msg.payload| <= data.Length == 128 && msg.payload == data[..|msg.payload|] && data !in Commands()
      modifies this`s, buf.memory`buf, buf.memory.cmd
      ensures Valid() && Filled(id) && Holds(id, msg) && s == old(s).(sn := old(s).sn[id := msg.sn])
    {
      hide System.FreeHeads, System.SendHeads, System.Memories, System.Layout;
      hide System.FreeSide, System.SendSide, System.Blocks, System.Numbers, System.AllFilled, System.Mailed;
      hide System.Tied;
      hide Tail;
      Territories();
      Objects(id);
      CommandSize(id);
      SameSize();
      buf.memory.buf := buf;
      BuildCommand(buf.memory.cmd, msg, data);
      assert Holds(id, msg);
      HeldFrame(id, msg);
      Rebuilt(id);
      s := s.(sn := s.sn[id := msg.sn]);
    }

    /** The part of uart_protocol_parse that fills a buffer around the callback. */
    method FillResponse(buf: Buffer, request: array<byte>, ackword: byte, reply: seq<byte>, ghost id: Id)
      requires Valid() && id < |pool| && buf == pool[id] && id !in s.list && id !in s.mail
      requires request.Length == SIZE && request !in Commands() && |reply| <= 128
      modifies this`s, buf.memory`buf, buf.memory.cmd
      ensures Valid() && Filled(id) && Holds(id, Message(request[4], request[5], ackword, reply))
      ensures s == old(s).(sn := old(s).sn[id := request[4]])
    {
      hide System.FreeHeads, System.SendHeads, System.Memories, System.Layout;
      hide System.FreeSide, System.SendSide, System.Blocks, System.Numbers, System.AllFilled, System.Mailed;
      hide System.Tied;
      hide Tail;
      ghost var msg := Message(request[4], request[5], ackword, reply);
      Territories();
      Objects(id);
      CommandSize(id);
      SameSize();
      buf.memory.buf := buf;
      BuildResponse(buf.memory.cmd, request, ackword, reply);
      assert Holds(id, msg);
      HeldFrame(id, msg);
      Rebuilt(id);
      s := s.(sn := s.sn[id := msg.sn]);
    }

    lemma CommandSize(id: Id)
      requires Layout() && id < |pool|
      ensures pool[id].memory.cmd.Length == SIZE
    {
    }

    /** A frame builder's buffer is in no queue. */
    lemma InHand()
      requires Inv(s) && s.free != []
      ensures var id, t := s.free[0], Apply(s, Step.Produce);
              id < |t.poll| && id in t.held && id !in t.list && id !in t.mail &&
              Enabled(t, Enqueue(id, 0, 0)) == (s.cursor == None)
    {
      var id, t := s.free[0], Apply(s, Step.Produce);
      StepKeepsInv(s, Step.Produce);
      assert Places(t, id) <= 1;
    }

    /** uart_protocol_dispose */
    method Dispose(cmdId: byte, pdtType: byte, len: nat, data: array<byte>, kind: byte)
      requires Valid() && Inv(s) && s.free != [] && s.cursor == None
      requires len <= 128 == data.Length && data !in Commands()
      modifies this`s, this`sendSn, FreeHeads(), SendHeads(), Memories(), Commands()
      ensures Valid() && old(s).free[0] < |pool| && s == Queued(old(s), kind, old(sendSn))
      ensures Holds(old(s).free[0], Message(old(sendSn), pdtType, cmdId, old(data[..len])))
      ensures unchanged(Commands() - {pool[old(s).free[0]].memory.cmd})
      ensures sendSn == if old(sendSn) == 255 then 0 else old(sendSn) + 1
    {
      hide System.FreeHeads, System.SendHeads, System.Memories, System.Commands, System.Layout;
      hide System.FreeSide, System.SendSide, System.Blocks, System.Numbers, System.AllFilled, System.Mailed;
      hide System.Tied;
      hide Tail, Inv;
      ghost var t, id := s, s.free[0];
      Outside(data);
      InHand();
      SameSize();
      Territories();
      Objects(id);
      var buf := Produce();
      var sn := sendSn;
      sendSn := if sn == 255 then 0 else sn + 1;
      FillCommand(buf, Message(sn, pdtType, cmdId, data[..len]), data, id);
      Append(buf.memory, kind, id);
      Noted(s, Queued(t, kind, sn));
      s := Queued(t, kind, sn);
    }

    lemma Outside(a: array<byte>)
      ensures {a} !! FreeHeads() && {a} !! SendHeads() && {a} !! Memories()
    {
    }

    lemma SameSize()
      requires Valid()
      ensures |s.poll| == |pool|
    {
    }

    /** The response to a request. */
    method Respond(request: array<byte>, ackword: byte, reply: seq<byte>)
      requires Valid() && Inv(s) && s.free != [] && s.cursor == None
      requires request.Length == SIZE && request !in Commands() && |reply| <= 128
      modifies this`s, FreeHeads(), SendHeads(), Memories(), Commands()
      ensures Valid() && old(s).free[0] < |pool| && s == Queued(old(s), 0, request[4])
      ensures Holds(old(s).free[0], Message(request[4], request[5], ackword, reply))
      ensures unchanged(Commands() - {pool[old(s).free[0]].memory.cmd})
    {
      hide System.FreeHeads, System.SendHeads, System.Memories, System.Commands, System.Layout;
      hide System.FreeSide, System.SendSide, System.Blocks, System.Numbers, System.AllFilled, System.Mailed;
      hide System.Tied;
      hide Tail, Inv;
      ghost var t, id := s, s.free[0];
      Outside(request);
      InHand();
      SameSize();
      Territories();
      Objects(id);
      var buf := Produce();
      FillResponse(buf, request, ackword, reply, id);
      Append(buf.memory, 0, id);
      Noted(s, Queued(t, 0, request[4]));
      s := Queued(t, 0, request[4]);
    }

    /**
     * uart_protocol_parse on a delivered frame f. A frame that fails the check, or whose command
     * is not in the table, changes nothing; a command with an ackword is answered; any other
     * acknowledges the first entry of the send list that has its sequence number.
     */
    method Parse(request: array<byte>, ghost f: seq<byte>, table: seq<Command>, reply: seq<byte>)
      requires Valid() && Inv(s)
      requires request.Length == SIZE && request !in Commands() && |reply| <= 128
      requires Complete(f) && |f| <= SIZE && request[..|f|] == f
      requires Reaction(f, table).Respond? ==> s.free != [] && s.cursor == None
      modifies this`s, FreeHeads(), SendHeads(), Memories(), Commands()
      ensures Valid()
      ensures match Reaction(f, table)
              case Ignore => s == old(s) && unchanged(Commands())
              case Respond(ackword) =>
                old(s).free[0] < |pool| && s == Queued(old(s), 0, f[4]) &&
                Holds(old(s).free[0], Message(f[4], f[5], ackword, reply)) &&
                unchanged(Commands() - {pool[old(s).free[0]].memory.cmd})
              case Acknowledge(sn) => s == Acknowledged(old(s), sn) && unchanged(Commands())
    {
      hide System.FreeHeads, System.SendHeads, System.Memories, System.Commands, System.Layout;
      hide System.FreeSide, System.SendSide, System.Blocks, System.Numbers, System.AllFilled, System.Mailed;
      hide System.Tied;
      hide Inv, Sum;
      Territories();
      Outside(request);
      var ok := ProcotolCheck(request, f);
      if !ok { return; }
      var k := 0;
      while k < |table| && table[k].cmdword != request[6]
        invariant k <= |table| && forall i :: 0 <= i < k ==> table[i].cmdword != f[6]
      {
        k := k + 1;
      }
      LookupIs(table, f[6], k);
      if k < |table| {
        if table[k].ackword != 0 {
          Respond(request, table[k].ackword, reply);
        } else {
          Acknowledge(request[4]);
        }
      }
    }
  }

  lemma SplitAt<T>(all: seq<T>, some: seq<T>, few: seq<T>)
    requires |few| <= |some| <= |all| && some[..|few|] == few && all[..|some|] == some
    ensures all[..|few|] == few && all[|few|..] == some[|few|..] + all[|some|..]
  {
    assert all[..|few|] == some[..|few|];
  }

  /** The scan moves on by one entry, and the mailbox is drained. */
  ghost function Onward(s: State): State {
    if Sized(s) && s.cursor.Some? && s.cursor.value < |s.list| then Drain(ScanAt(s, s.cursor.value)) else s
  }

  /** Produce and then Enqueue, as one function of the state. */
  ghost function Queued(t: State, kind: byte, sn: byte): State
    requires Sized(t) && t.free != [] && t.free[0] < |t.poll| && t.cursor == None
  {
    Apply(Apply(t, Step.Produce), Enqueue(t.free[0], kind, sn))
  }

  lemma ScanUnfolds(s: State)
    requires Inv(s) && s.mail == [] && s.cursor.Some? && s.cursor.value < |s.list|
    ensures var u := Onward(s);
            u.cursor.Some? && u.cursor.value <= |u.list| && |u.list| - u.cursor.value < |s.list| - s.cursor.value &&
            ScanFrom(s, s.cursor.value) == ScanFrom(u, u.cursor.value)
  {
    hide Scan;
    ScanKeepsInv(s, s.cursor.value);
    DrainKeepsInv(ScanAt(s, s.cursor.value));
    assert Removed(s.list, s.cursor.value) == s.list[..s.cursor.value] + s.list[s.cursor.value + 1..];
  }

  lemma ScanEnds(s: State)
    requires Inv(s) && s.cursor == Some(|s.list|)
    ensures ScanFrom(s, |s.list|) == s && Inv(s.(cursor := None))
  {
    StepKeepsInv(s, EndScan);
  }

  lemma ResultIgnoresCursor(s: State, t: State)
    requires Sized(s) && Sized(t) && ScanResult(s.(cursor := Some(0)), 0, t)
    ensures ScanResult(s, 0, t.(cursor := None))
  {
  }
}
