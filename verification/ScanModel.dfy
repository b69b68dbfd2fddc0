/** A whole scan of the send list, interleaved with the send task, as a map and filter on the list. */
module ScanModel {
  import opened Sequences
  import opened LinkModel

  /** The entries, in order, with which a scan does one of the wanted actions. */
  function Select(ids: seq<Id>, poll: seq<Poll>, want: Action -> bool): seq<Id>
    requires forall i :: 0 <= i < |ids| ==> ids[i] < |poll|
  {
    if ids == [] then []
    else (if want(Scan(poll[ids[0]]).action) then [ids[0]] else []) + Select(ids[1..], poll, want)
  }

  predicate Leaves(a: Action) { !Stays(a) }

  /** The block an entry has after a scan and the sending that follows. */
  function Settled(p: Poll): Poll {
    if Stays(Scan(p).action) then Scan(p).poll else ZERO
  }

  /** The scan from position k to the end; the send task drains the mailbox after every entry. */
  function ScanFrom(s: State, k: nat): (t: State)
    requires Sized(s) && k <= |s.list|
    decreases |s.list| - k
  {
    if k == |s.list| then s
    else
      var u := Drain(ScanAt(s, k));
      ScanFrom(u, if Stays(Scan(s.poll[s.list[k]]).action) then k + 1 else k)
  }

  /** What the entry at k and the sending that follows make of s. */
  ghost predicate OneVisit(s: State, k: nat, u: State)
    requires Sized(s) && k < |s.list|
  {
    var id := s.list[k];
    var r := Scan(s.poll[id]);
    Sized(u) && u.mail == [] && u.held == s.held && u.sn == s.sn &&
    u.list == (if Stays(r.action) then s.list else Removed(s.list, k)) &&
    u.free == (if Leaves(r.action) then s.free + [id] else s.free) &&
    u.wire == (if Posts(r.action) then s.wire + [id] else s.wire) &&
    u.poll == s.poll[id := Settled(s.poll[id])] && u.age == s.age[id := s.age[id] + 1]
  }

  /** One entry and the sending that follows. */
  lemma OneEntry(s: State, k: nat)
    requires Inv(s) && s.mail == [] && k < |s.list|
    ensures Inv(Drain(ScanAt(s, k))) && OneVisit(s, k, Drain(ScanAt(s, k)))
  {
    assert IsListed(s, s.list[k]);
    hide Inv;
    ScanKeepsInv(s, k);
    DrainKeepsInv(ScanAt(s, k));
    Visit(s, k);
  }

  lemma Visit(s: State, k: nat)
    requires Sized(s) && s.mail == [] && k < |s.list| && (s.poll[s.list[k]].kind == 1 ==> Safe(s.poll[s.list[k]]))
    ensures OneVisit(s, k, Drain(ScanAt(s, k)))
  {
    var id := s.list[k];
    EntryScanned(s.poll[id]);
    RemovedAt(s.list, k);
    hide Scan, Removed, Safe;
    var r, v := Scan(s.poll[id]), ScanAt(s, k);
    if Posts(r.action) {
      assert v.mail == [id] && v.mail[1..] == [];
      assert v.poll[id := ZERO] == s.poll[id := ZERO];
    }
  }

  lemma {:induction false} SelectFrame(ids: seq<Id>, poll: seq<Poll>, id: Id, p: Poll, want: Action -> bool)
    requires id < |poll| && id !in ids && forall i :: 0 <= i < |ids| ==> ids[i] < |poll|
    ensures Select(ids, poll[id := p], want) == Select(ids, poll, want)
  {
    if ids != [] {
      assert ids[0] in ids;
      SelectFrame(ids[1..], poll, id, p, want);
    }
  }

  /** The blocks after a scan of the entries ids. */
  ghost predicate BlocksResult(s: State, ids: seq<Id>, t: State)
    requires Sized(s) && Sized(t) && |t.poll| == |s.poll|
  {
    forall id :: 0 <= id < |s.poll| ==>
      t.poll[id] == (if id in ids then Settled(s.poll[id]) else s.poll[id]) &&
      t.age[id] == (if id in ids then s.age[id] + 1 else s.age[id])
  }

  /** The parts of the state that a scan of the entries from k on determines. */
  ghost predicate ScanResult(s: State, k: nat, t: State)
    requires Sized(s) && k <= |s.list|
  {
    var ids := s.list[k..];
    Sized(t) && |t.poll| == |s.poll| && t.mail == [] && t.held == s.held && t.sn == s.sn &&
    t.list == s.list[..k] + Select(ids, s.poll, Stays) &&
    t.free == s.free + Select(ids, s.poll, Leaves) &&
    t.wire == s.wire + Select(ids, s.poll, Posts) && BlocksResult(s, ids, t)
  }

  /**
   * A scan visits every entry exactly once, keeps the survivors in their old order, writes the
   * posted frames in list order and returns the leaving buffers to the pool in list order.
   */
  lemma {:induction false} ScanRefines(s: State, k: nat)
    requires Inv(s) && s.mail == [] && k <= |s.list|
    ensures ScanResult(s, k, ScanFrom(s, k)) && Inv(ScanFrom(s, k))
    decreases |s.list| - k
  {
    if k == |s.list| {
      assert s.list[k..] == [] && s.list[..k] == s.list;
    } else {
      var id := s.list[k];
      var u := Drain(ScanAt(s, k));
      OneEntry(s, k);
      var k' := Behind(s, k);
      Around(s, k, u);
      ScanRefines(u, k');
      ScanStep(s, k, u, ScanFrom(u, k'));
    }
  }

  /** Position behind the entry at k. */
  function Behind(s: State, k: nat): nat
    requires Sized(s) && k < |s.list|
  {
    if Stays(Scan(s.poll[s.list[k]]).action) then k + 1 else k
  }

  lemma SelectStep(ids: seq<Id>, poll: seq<Poll>, later: seq<Id>, p: Poll, want: Action -> bool, out: seq<Id>)
    requires forall i :: 0 <= i < |ids| ==> ids[i] < |poll|
    requires ids != [] && later == ids[1..] && ids[0] !in later
    ensures var id := ids[0]; var next := if want(Scan(poll[id]).action) then out + [id] else out;
            next + Select(later, poll[id := p], want) == out + Select(ids, poll, want)
  {
    hide Scan;
    SelectFrame(later, poll, ids[0], p, want);
  }

  /** The list around the cursor before and after a visit. */
  lemma Around(s: State, k: nat, u: State)
    requires Sized(s) && NoDuplicates(s.list) && k < |s.list| && OneVisit(s, k, u)
    ensures var id := s.list[k]; var b := Behind(s, k); var later := s.list[k + 1..];
            s.list[k..] == [id] + later && id !in later && b <= |u.list| && u.list[b..] == later &&
            u.list[..b] == if Stays(Scan(s.poll[id]).action) then s.list[..k] + [id] else s.list[..k]
  {
    hide Scan, Settled;
  }

  lemma QueuesStep(s: State, k: nat, u: State)
    requires Sized(s) && NoDuplicates(s.list) && k < |s.list| && OneVisit(s, k, u)
    ensures var b := Behind(s, k); var ids := s.list[k..]; b <= |u.list| && var later := u.list[b..];
            u.list[..b] + Select(later, u.poll, Stays) == s.list[..k] + Select(ids, s.poll, Stays) &&
            u.free + Select(later, u.poll, Leaves) == s.free + Select(ids, s.poll, Leaves) &&
            u.wire + Select(later, u.poll, Posts) == s.wire + Select(ids, s.poll, Posts)
  {
    hide Scan, Select, Settled, Removed;
    Around(s, k, u);
    var ids, later, p := s.list[k..], s.list[k + 1..], Settled(s.poll[s.list[k]]);
    assert ids[1..] == later;
    SelectStep(ids, s.poll, later, p, Stays, s.list[..k]);
    SelectStep(ids, s.poll, later, p, Leaves, s.free);
    SelectStep(ids, s.poll, later, p, Posts, s.wire);
  }

  lemma BlocksStep(s: State, k: nat, u: State, t: State)
    requires Sized(s) && NoDuplicates(s.list) && k < |s.list| && OneVisit(s, k, u)
    requires Sized(t) && |t.poll| == |u.poll| && BlocksResult(u, s.list[k + 1..], t)
    ensures BlocksResult(s, s.list[k..], t)
  {
    Around(s, k, u);
    var id, later := s.list[k], s.list[k + 1..];
    assert s.list[k..] == [id] + later;
    hide OneVisit, Scan, Settled, NoDuplicates, Removed, BlocksResult, Sized;
    BlocksVisit(s, k, u);
    BlocksJoin(s, id, later, u, t);
  }

  lemma BlocksVisit(s: State, k: nat, u: State)
    requires Sized(s) && k < |s.list| && OneVisit(s, k, u)
    ensures var id := s.list[k];
            Sized(u) && u.poll == s.poll[id := Settled(s.poll[id])] && u.age == s.age[id := s.age[id] + 1]
  {
    hide Scan, Settled, Removed;
  }

  lemma BlocksJoin(s: State, id: Id, later: seq<Id>, u: State, t: State)
    requires Sized(s) && Sized(u) && Sized(t) && |t.poll| == |u.poll| == |s.poll| && id < |s.poll| && id !in later
    requires u.poll == s.poll[id := Settled(s.poll[id])] && u.age == s.age[id := s.age[id] + 1]
    requires BlocksResult(u, later, t)
    ensures BlocksResult(s, [id] + later, t)
  {
    hide Settled;
    forall x | 0 <= x < |s.poll|
      ensures t.poll[x] == if x in [id] + later then Settled(s.poll[x]) else s.poll[x]
      ensures t.age[x] == if x in [id] + later then s.age[x] + 1 else s.age[x]
    {
      assert x in [id] + later <==> x == id || x in later;
    }
  }

  lemma ScanStep(s: State, k: nat, u: State, t: State)
    requires Sized(s) && NoDuplicates(s.list) && k < |s.list| && OneVisit(s, k, u) && Sized(u)
    requires Behind(s, k) <= |u.list| && ScanResult(u, Behind(s, k), t)
    ensures ScanResult(s, k, t)
  {
    hide Scan, Select, Settled, BlocksResult, Removed;
    Around(s, k, u);
    QueuesStep(s, k, u);
    BlocksStep(s, k, u, t);
  }
}
