/** Concrete runs of one node, built only from the contracts of Peer.Node:
    the grant/defer decision and the flush of the deferred list at release. */
module Scenarios {
  import opened Ordering
  import opened Peer

  /** node1 answers a request while RELEASED (grant at once), then wants the
      critical section with request (node1, 5): the inbound (node2, 5) loses
      the tie on identity and is deferred, while (node3, 3) is earlier and
      gets its release at once although node1 is WANTED. Every answer says
      not granted. */
  method GrantDeferScenario() returns (answers: seq<AccessResponse>, sent: seq<Outgoing>, pending: seq<string>)
    ensures answers == [AccessResponse(false, 4), AccessResponse(false, 6), AccessResponse(false, 7)]
    ensures sent == [Release("node2", ReleaseRequest("node1", 4)), Release("node3", ReleaseRequest("node1", 7))]
    ensures pending == ["node2"]
  {
    var n := new Node("node1", "localhost:5001");
    var ok := n.ConnectToPeer("node2", "localhost:5002", true);
    ok := n.ConnectToPeer("node3", "localhost:5003", true);
    var a1 := n.RequestAccess(Request("node2", 3));
    var started := n.BeginRequest();
    assert n.currentRequest == Some(Request("node1", 5));
    assert StrLess("node1", "node2") by {
      assert "node1"[..4] == "node2"[..4] == "node";
    }
    var a2 := n.RequestAccess(Request("node2", 5));
    var a3 := n.RequestAccess(Request("node3", 3));
    answers, sent, pending := [a1, a2, a3], n.outbox, n.deferredResponses;
  }

  /** The answers of the flush scenario: each peer's request is later than
      node1's, so each grants at once, and its release (stamped like its
      answer) arrives before the answer. */
  function FlushOutcomes(): seq<Outcome>
  {
    [Response(5, ReleaseRequest("node2", 5), true), Response(5, ReleaseRequest("node3", 5), true)]
  }

  /** The two peers the flush scenario registers. */
  lemma FlushPeers()
    ensures |map[]["node2" := "localhost:5002"]["node3" := "localhost:5003"]| == 2
  {
    var none: map<string, string> := map[];
    assert |none| == 0;
    var m1 := none["node2" := "localhost:5002"];
    assert |m1| == 1;
    assert "node3" !in m1 by {
      assert "node3"[4] != "node2"[4];
    }
    assert |m1["node3" := "localhost:5003"]| == 2;
  }

  /** Both answers count, and their four merges take the clock from 6 to 10. */
  lemma FlushMerges()
    ensures AnsweredCount(FlushOutcomes()) == 2
    ensures Lamport.MergeAll(6, MergedTimestamps(FlushOutcomes())) == 10
  {
    var outcomes := FlushOutcomes();
    assert outcomes[..1] == [outcomes[0]] && outcomes[..1][..0] == [];
    assert MergedTimestamps(outcomes[..1]) == [5, 5];
    assert MergedTimestamps(outcomes) == [5, 5, 5, 5];
    var ts: seq<nat> := [5, 5, 5, 5];
    assert ts[..3] == [5, 5, 5] && ts[..3][..2] == [5, 5];
    assert ts[..3][..2][..1] == [5] && ts[..3][..2][..1][..0] == [];
    assert Lamport.MergeAll(6, ts[..3][..2][..1]) == 7;
    assert Lamport.MergeAll(6, ts[..3][..2]) == 8;
    assert Lamport.MergeAll(6, ts[..3]) == 9;
  }

  /** The release calls of the flush, in deferral order. */
  lemma FlushReleases()
    ensures ReleasesFor("node1", ["node2", "node3"], 11) ==
      [Release("node2", ReleaseRequest("node1", 11)), Release("node3", ReleaseRequest("node1", 11))]
  {
    var ids := ["node2", "node3"];
    assert ids[..1] == ["node2"] && ids[..1][..0] == [];
  }

  /** node1 wants the critical section with request (node1, 1); node2 and
      node3 ask meanwhile and are deferred; both peers grant node1 at once,
      so each one's release reaches node1 before its answer; on release
      each deferred peer gets exactly one release call, in the order they
      were deferred, with the one release timestamp, and nothing is left
      deferred. */
  method DeferredFlushScenario() returns (granted: nat, sent: seq<Outgoing>, pending: seq<string>, clock: nat)
    ensures granted == 2
    ensures sent == [Release("node2", ReleaseRequest("node1", 11)), Release("node3", ReleaseRequest("node1", 11))]
    ensures pending == [] && clock == 11
  {
    FlushPeers();
    FlushMerges();
    FlushReleases();
    var n := new Node("node1", "localhost:5001");
    var ok := n.ConnectToPeer("node2", "localhost:5002", true);
    ok := n.ConnectToPeer("node3", "localhost:5003", true);
    assert |n.peers| == 2;
    var started := n.BeginRequest();
    assert n.currentRequest == Some(Request("node1", 1)) && n.lamportClock == 1;
    assert IsHigherPriority(Some(Request("node1", 1)), Some(Request("node2", 4)));
    assert IsHigherPriority(Some(Request("node1", 1)), Some(Request("node3", 4)));
    var _ := n.RequestAccess(Request("node2", 4));
    assert n.deferredResponses == ["node2"] && n.outbox == [];
    var _ := n.RequestAccess(Request("node3", 4));
    assert n.lamportClock == 6 && n.deferredResponses == ["node2", "node3"];
    granted := n.AwaitResponses(FlushOutcomes());
    assert n.lamportClock == 10 && n.outbox == [];
    n.ExecuteCriticalSection();
    assert n.outbox == ReleasesFor("node1", ["node2", "node3"], 11);
    sent, pending, clock := n.outbox, n.deferredResponses, n.lamportClock;
  }
}
