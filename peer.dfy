/** The per-node Ricart-Agrawala engine of peer/peer.go: a `Node` whose
    fields the inbound handlers (RequestAccess, ReleaseAccess) and the
    outbound acquisition (RequestCriticalSection, ExecuteCriticalSection)
    update in place. Every step is atomic here; the goroutines, channels and
    mutexes of the source are not modelled. A `ReleaseAccess` call made to a
    peer is recorded in the node's `outbox` instead of being sent. */
module Peer {
  import opened Ordering
  import opened Lamport

  /** Answer to an inbound `RequestAccess`. */
  datatype AccessResponse = AccessResponse(granted: bool, lamportTimestamp: nat)

  /** Body of a `ReleaseAccess` call, and its answer. */
  datatype ReleaseRequest = ReleaseRequest(nodeId: string, lamportTimestamp: nat)
  datatype ReleaseResponse = ReleaseResponse(acknowledged: bool, lamportTimestamp: nat)

  /** A `ReleaseAccess` call made to peer `to`. */
  datatype Outgoing = Release(to: string, msg: ReleaseRequest)

  /** What the goroutine that asked one peer for access reports back. Either
      the call failed, or the peer answered with a timestamp and the
      goroutine then took one value from the node's release channel. Only an
      inbound `ReleaseAccess`, carrying `release`, puts a value there, after
      merging its timestamp into the clock. A peer that grants at once makes
      that call before its answer returns (`releasedFirst`); a peer that
      defers makes it later. */
  datatype Outcome =
    | TransportError
    | Response(lamportTimestamp: nat, release: ReleaseRequest, releasedFirst: bool)

  /** The release calls node `from` makes, in order, to the identities `ids`,
      all stamped with `ts`. */
  function ReleasesFor(from: string, ids: seq<string>, ts: nat): (r: seq<Outgoing>)
    ensures |r| == |ids|
    decreases |ids|
  {
    if ids == [] then []
    else ReleasesFor(from, ids[..|ids| - 1], ts) + [Release(ids[|ids| - 1], ReleaseRequest(from, ts))]
  }

  /** The k-th release goes to the k-th identity, from `from`, stamped `ts`. */
  lemma {:induction false} ReleasesForAt(from: string, ids: seq<string>, ts: nat, k: nat)
    requires k < |ids|
    ensures ReleasesFor(from, ids, ts)[k] == Release(ids[k], ReleaseRequest(from, ts))
    decreases |ids|
  {
    if k < |ids| - 1 {
      ReleasesForAt(from, ids[..|ids| - 1], ts, k);
    }
  }

  /** The timestamps one outcome merges into the clock, in the order the
      merges happen: none for a failed call, the release's and the answer's
      for an answered one. */
  function OutcomeTimestamps(o: Outcome): seq<nat>
  {
    match o
    case TransportError => []
    case Response(ts, release, releasedFirst) =>
      if releasedFirst then [release.lamportTimestamp, ts] else [ts, release.lamportTimestamp]
  }

  /** All the timestamps the outcomes merge into the clock, in order. */
  function MergedTimestamps(outcomes: seq<Outcome>): (r: seq<nat>)
    ensures |r| <= 2 * |outcomes|
    decreases |outcomes|
  {
    if outcomes == [] then []
    else MergedTimestamps(outcomes[..|outcomes| - 1]) + OutcomeTimestamps(outcomes[|outcomes| - 1])
  }

  /** The number of peers that answered. */
  function AnsweredCount(outcomes: seq<Outcome>): (r: nat)
    ensures r <= |outcomes|
    decreases |outcomes|
  {
    if outcomes == [] then 0
    else AnsweredCount(outcomes[..|outcomes| - 1]) + (if outcomes[|outcomes| - 1].Response? then 1 else 0)
  }

  /** Every peer answered exactly when the count of answers equals the number
      of outcomes. */
  lemma {:induction false} AllAnsweredIff(outcomes: seq<Outcome>)
    ensures AnsweredCount(outcomes) == |outcomes| <==>
      forall k :: 0 <= k < |outcomes| ==> outcomes[k].Response?
    decreases |outcomes|
  {
    if outcomes != [] {
      var init := outcomes[..|outcomes| - 1];
      AllAnsweredIff(init);
      assert forall k :: 0 <= k < |init| ==> init[k] == outcomes[k];
    }
  }

  /** Each answered peer costs two merges (its answer and its release), a
      failed call none. */
  lemma {:induction false} TwoMergesPerAnswer(outcomes: seq<Outcome>)
    ensures |MergedTimestamps(outcomes)| == 2 * AnsweredCount(outcomes)
    decreases |outcomes|
  {
    if outcomes != [] {
      TwoMergesPerAnswer(outcomes[..|outcomes| - 1]);
    }
  }

  /** The clock after the two merges of one answered peer, in the order they
      happened. */
  function AnswerMerges(clock: nat, ts: nat, release: ReleaseRequest, releasedFirst: bool): nat
  {
    if releasedFirst then Merge(Merge(clock, release.lamportTimestamp), ts)
    else Merge(Merge(clock, ts), release.lamportTimestamp)
  }

  /** The clock after the merges of one outcome: unchanged for a failed
      call, the two merges of an answered one otherwise. */
  function OutcomeClock(clock: nat, o: Outcome): nat
  {
    match o
    case TransportError => clock
    case Response(ts, release, releasedFirst) => AnswerMerges(clock, ts, release, releasedFirst)
  }

  /** One more outcome extends the merges and the count by that outcome's. */
  lemma AwaitStep(start: nat, outcomes: seq<Outcome>, i: nat)
    requires i < |outcomes|
    ensures MergeAll(start, MergedTimestamps(outcomes[..i + 1])) ==
      OutcomeClock(MergeAll(start, MergedTimestamps(outcomes[..i])), outcomes[i])
    ensures AnsweredCount(outcomes[..i + 1]) ==
      AnsweredCount(outcomes[..i]) + (if outcomes[i].Response? then 1 else 0)
  {
    assert outcomes[..i + 1][..i] == outcomes[..i];
    var before := MergedTimestamps(outcomes[..i]);
    if outcomes[i].Response? {
      var o := outcomes[i];
      var first, second := o.lamportTimestamp, o.release.lamportTimestamp;
      if o.releasedFirst {
        first, second := o.release.lamportTimestamp, o.lamportTimestamp;
      }
      assert OutcomeTimestamps(o) == [first, second];
      assert before + [first, second] == before + [first] + [second];
      MergeAllSnoc(start, before, first);
      MergeAllSnoc(start, before + [first], second);
    } else {
      assert before + [] == before;
    }
  }

  /** The guard of peer/peer.go:66: an inbound request is deferred when this
      node is in its critical section, or wants it and its own request has
      priority over the inbound one. */
  predicate ShouldDefer(inCS: bool, wantCS: bool, current: Option<Request>, req: Request)
    ensures ShouldDefer(inCS, wantCS, current, req) ==> inCS || wantCS
    ensures ShouldDefer(inCS, wantCS, current, req) && !inCS ==>
      current.Some? && current.value != req &&
      current.value.lamportTimestamp <= req.lamportTimestamp
  {
    inCS || (wantCS && IsHigherPriority(current, Some(req)))
  }

  /** Two contending nodes, both wanting and neither holding the critical
      section, with distinct requests: exactly one of them defers the other. */
  lemma ContendersDeferExactlyOne(r1: Request, r2: Request)
    requires r1 != r2
    ensures ShouldDefer(false, true, Some(r1), r2) != ShouldDefer(false, true, Some(r2), r1)
  {
    PriorityTotal(r1, r2);
  }

  /** Two distinct valid nodes that both want the critical section and are
      not in it: exactly one of them defers the other's request. */
  lemma ValidContendersDeferExactlyOne(a: Node, b: Node)
    requires a.Valid() && b.Valid() && a.id != b.id
    requires a.wantCS && !a.inCS && b.wantCS && !b.inCS
    ensures a.currentRequest.Some? && b.currentRequest.Some?
    ensures ShouldDefer(a.inCS, a.wantCS, a.currentRequest, b.currentRequest.value) !=
            ShouldDefer(b.inCS, b.wantCS, b.currentRequest, a.currentRequest.value)
  {
    ContendersDeferExactlyOne(a.currentRequest.value, b.currentRequest.value);
  }

  /** One process's node. `wantCS` and `inCS` encode the protocol state:
      neither is RELEASED, `wantCS` alone is WANTED, `inCS` is HELD. `peers`
      maps each connected peer's identity to the address its client was
      created for. */
  class Node {
    const id: string
    const address: string
    var peers: map<string, string>
    var lamportClock: nat
    var wantCS: bool
    var inCS: bool
    var deferredResponses: seq<string>
    var responseCount: int
    var currentRequest: Option<Request>
    var outbox: seq<Outgoing>

    /** The node invariant: a released node owes nobody a release; a node
        that wants the critical section has stamped its request; the stamped
        request is this node's own and is no later than the clock. */
    ghost predicate Valid()
      reads this
    {
      && (!wantCS && !inCS ==> deferredResponses == [])
      && (wantCS ==> currentRequest.Some?)
      && (currentRequest.Some? ==>
            currentRequest.value.nodeId == id &&
            currentRequest.value.lamportTimestamp <= lamportClock)
    }

    /** `NewNode`: clock at zero, no peers, nothing requested or deferred. */
    constructor (id: string, address: string)
      ensures Valid()
      ensures this.id == id && this.address == address
      ensures peers == map[] && lamportClock == 0 && !wantCS && !inCS
      ensures deferredResponses == [] && responseCount == 0
      ensures currentRequest == None && outbox == []
    {
      this.id := id;
      this.address := address;
      peers := map[];
      lamportClock := 0;
      wantCS, inCS := false, false;
      deferredResponses := [];
      responseCount := 0;
      currentRequest := None;
      outbox := [];
    }

    /** `ConnectToPeer`: creating the client fails only for a target the
        client library rejects, which `targetAccepted` stands for; on success
        the peer is (re)registered under its identity. */
    method ConnectToPeer(peerId: string, peerAddr: string, targetAccepted: bool) returns (ok: bool)
      requires Valid()
      modifies this`peers
      ensures Valid()
      ensures ok == targetAccepted
      ensures peers == if ok then old(peers)[peerId := peerAddr] else old(peers)
    {
      ok := targetAccepted;
      if ok {
        peers := peers[peerId := peerAddr];
      }
    }

    /** `UpdateLamportClock`: merge a received timestamp into the clock. */
    method UpdateLamportClock(msgTimestamp: nat) returns (r: nat)
      modifies this`lamportClock
      ensures lamportClock == Merge(old(lamportClock), msgTimestamp) && r == lamportClock
    {
      if msgTimestamp > lamportClock {
        lamportClock := msgTimestamp;
      }
      lamportClock := lamportClock + 1;
      r := lamportClock;
    }

    /** `GetLamportClock`: tick the clock for a local event. */
    method GetLamportClock() returns (r: nat)
      modifies this`lamportClock
      ensures lamportClock == old(lamportClock) + 1 && r == lamportClock
    {
      lamportClock := lamportClock + 1;
      r := lamportClock;
    }

    /** `SendReleaseMSG`: a release call to `peerId` carrying this node's
        identity and `releaseTimestamp`. */
    method SendReleaseMSG(peerId: string, releaseTimestamp: nat)
      modifies this`outbox
      ensures outbox == old(outbox) + [Release(peerId, ReleaseRequest(id, releaseTimestamp))]
    {
      outbox := outbox + [Release(peerId, ReleaseRequest(id, releaseTimestamp))];
    }

    /** Inbound `RequestAccess`. The answer always says not granted; the
        permission that matters is the release call, sent at once when the
        request is not deferred and at exit from the critical section when
        it is. The deferred list is appended to without removing duplicates. */
    method RequestAccess(req: Request) returns (resp: AccessResponse)
      requires Valid()
      modifies this`lamportClock, this`deferredResponses, this`outbox
      ensures Valid()
      ensures lamportClock == Merge(old(lamportClock), req.lamportTimestamp)
      ensures resp == AccessResponse(false, lamportClock)
      ensures ShouldDefer(inCS, wantCS, currentRequest, req) ==>
        deferredResponses == old(deferredResponses) + [req.nodeId] && outbox == old(outbox)
      ensures !ShouldDefer(inCS, wantCS, currentRequest, req) ==>
        deferredResponses == old(deferredResponses) &&
        outbox == old(outbox) + [Release(req.nodeId, ReleaseRequest(id, lamportClock))]
    {
      var timestamp := UpdateLamportClock(req.lamportTimestamp);
      if inCS || (wantCS && IsHigherPriority(currentRequest, Some(req))) {
        deferredResponses := deferredResponses + [req.nodeId];
        resp := AccessResponse(false, timestamp);
        return;
      }
      resp := AccessResponse(false, timestamp);
      SendReleaseMSG(req.nodeId, timestamp);
    }

    /** Inbound `ReleaseAccess`: merge the timestamp and acknowledge. */
    method ReleaseAccess(req: ReleaseRequest) returns (resp: ReleaseResponse)
      requires Valid()
      modifies this`lamportClock
      ensures Valid()
      ensures lamportClock == Merge(old(lamportClock), req.lamportTimestamp)
      ensures resp == ReleaseResponse(true, lamportClock)
    {
      var timestamp := UpdateLamportClock(req.lamportTimestamp);
      resp := ReleaseResponse(true, timestamp);
    }

    /** First part of `RequestCriticalSection`: the re-entry guard, then
        RELEASED -> WANTED with a freshly ticked request stamp. */
    method BeginRequest() returns (started: bool)
      requires Valid()
      modifies this`wantCS, this`lamportClock, this`currentRequest, this`responseCount
      ensures Valid()
      ensures started == !(old(inCS) || old(wantCS))
      ensures !started ==> unchanged(this)
      ensures started ==>
        wantCS && lamportClock == old(lamportClock) + 1 &&
        currentRequest == Some(Request(id, lamportClock)) && responseCount == 0
    {
      if inCS || wantCS {
        return false;
      }
      wantCS := true;
      var timestamp := GetLamportClock();
      currentRequest := Some(Request(id, timestamp));
      responseCount := 0;
      started := true;
    }

    /** Second part of `RequestCriticalSection`: take exactly one outcome per
        peer. An answered peer's outcome brings two clock merges, the
        inbound release that fed its goroutine and the answer itself, in the
        order they happened. The answers are counted. The count is returned
        but, as in the source, nothing depends on it. */
    method AwaitResponses(outcomes: seq<Outcome>) returns (granted: nat)
      requires Valid()
      requires |outcomes| == |peers|
      modifies this`lamportClock
      ensures Valid()
      ensures lamportClock == MergeAll(old(lamportClock), MergedTimestamps(outcomes))
      ensures granted == AnsweredCount(outcomes)
    {
      ghost var start := lamportClock;
      var needed := |peers|;
      granted := 0;
      var i := 0;
      while i < needed
        invariant 0 <= i <= needed
        invariant Valid()
        invariant lamportClock == MergeAll(start, MergedTimestamps(outcomes[..i]))
        invariant granted == AnsweredCount(outcomes[..i])
        decreases needed - i
      {
        AwaitStep(start, outcomes, i);
        var released := TakeOutcome(outcomes[i]);
        if released {
          granted := granted + 1;
        }
        i := i + 1;
      }
      assert outcomes[..needed] == outcomes;
    }

    /** What one peer's goroutine does after its call returns: on an error
        it reports false; otherwise it merges the answer's timestamp and
        reports the value it takes from the release channel, which the
        inbound `ReleaseAccess` put there after merging the release's
        timestamp. The two merges happen in the order `releasedFirst` says. */
    method TakeOutcome(o: Outcome) returns (released: bool)
      requires Valid()
      modifies this`lamportClock
      ensures Valid()
      ensures lamportClock == OutcomeClock(old(lamportClock), o)
      ensures released == o.Response?
    {
      if o.TransportError? {
        return false;
      }
      if o.releasedFirst {
        var _ := ReleaseAccess(o.release);
        var _ := UpdateLamportClock(o.lamportTimestamp);
      } else {
        var _ := UpdateLamportClock(o.lamportTimestamp);
        var _ := ReleaseAccess(o.release);
      }
      released := true;
    }

    /** Entry into the critical section (WANTED -> HELD). */
    method EnterCriticalSection()
      requires Valid()
      modifies this`inCS
      ensures Valid() && inCS
    {
      inCS := true;
    }

    /** Exit from the critical section: back to RELEASED, tick the clock for
        the release timestamp, then drain the deferred list front to back,
        one release call per entry. `currentRequest` is left as it was. */
    method ExitCriticalSection()
      requires Valid()
      modifies this`inCS, this`wantCS, this`lamportClock, this`deferredResponses, this`outbox
      ensures Valid()
      ensures !inCS && !wantCS && deferredResponses == []
      ensures lamportClock == old(lamportClock) + 1
      ensures outbox == old(outbox) + ReleasesFor(id, old(deferredResponses), lamportClock)
    {
      inCS := false;
      wantCS := false;
      var releaseTimestamp := GetLamportClock();
      ghost var pending := deferredResponses;
      ghost var sent := outbox;
      ghost var done := 0;
      while |deferredResponses| > 0
        invariant 0 <= done <= |pending|
        invariant deferredResponses == pending[done..]
        invariant outbox == sent + ReleasesFor(id, pending[..done], releaseTimestamp)
        invariant !inCS && !wantCS && lamportClock == releaseTimestamp
        invariant currentRequest == old(currentRequest)
        decreases |deferredResponses|
      {
        var front := deferredResponses[0];
        SendReleaseMSG(front, releaseTimestamp);
        deferredResponses := deferredResponses[1..];
        assert pending[..done + 1][..done] == pending[..done];
        done := done + 1;
      }
      assert pending[..done] == pending;
    }

    /** `ExecuteCriticalSection`: enter, (the critical-section body), exit. */
    method ExecuteCriticalSection()
      requires Valid()
      modifies this`inCS, this`wantCS, this`lamportClock, this`deferredResponses, this`outbox
      ensures Valid()
      ensures !inCS && !wantCS && deferredResponses == []
      ensures lamportClock == old(lamportClock) + 1
      ensures outbox == old(outbox) + ReleasesFor(id, old(deferredResponses), lamportClock)
    {
      EnterCriticalSection();
      ExitCriticalSection();
    }

    /** `RequestCriticalSection`: a no-op while WANTED or HELD; otherwise
        stamp a request, take one outcome per peer, and run the critical
        section whatever the outcomes were. */
    method RequestCriticalSection(outcomes: seq<Outcome>) returns (started: bool, granted: nat)
      requires Valid()
      requires |outcomes| == |peers|
      modifies this
      ensures Valid()
      ensures started == !(old(inCS) || old(wantCS))
      ensures !started ==> unchanged(this) && granted == 0
      ensures started ==>
        var requestTimestamp := old(lamportClock) + 1;
        && currentRequest == Some(Request(id, requestTimestamp))
        && responseCount == 0
        && granted == AnsweredCount(outcomes)
        && lamportClock == MergeAll(requestTimestamp, MergedTimestamps(outcomes)) + 1
        && !inCS && !wantCS && deferredResponses == []
        && outbox == old(outbox) + ReleasesFor(id, old(deferredResponses), lamportClock)
        && peers == old(peers)
    {
      granted := 0;
      started := BeginRequest();
      if !started {
        return;
      }
      granted := AwaitResponses(outcomes);
      ExecuteCriticalSection();
    }
  }
}
