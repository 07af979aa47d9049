# Ricart–Agrawala node engine, modelled in Dafny

This project models the mutual-exclusion engine that every node runs in
`peer/peer.go`. Nodes ask each other for the critical section. Requests are
ordered by Lamport timestamps, and ties are broken by node identity. A node
that is busy or has priority defers the requester and releases it when it
leaves the critical section.

Modules:

- `Ordering` (`ordering.dfy`): the `Request` record and Go's string `<`
  (`StrLess`). It also holds `isHigherPriority` as the predicate
  `IsHigherPriority`, with lemmas that it is a strict total order.
- `Lamport` (`lamport.dfy`): the merge-on-receive rule `Merge`, and
  `MergeAll` for a sequence of merges.
- `Peer` (`peer.dfy`): the `Node` class with the source's fields
  (`lamportClock`, `wantCS`, `inCS`, `currentRequest`, `deferredResponses`,
  `responseCount`, `peers`, and the constant `address`). Its `outbox`
  records every `ReleaseAccess` call the node makes. The class has the inbound handlers `RequestAccess` and
  `ReleaseAccess`, and the acquisition `RequestCriticalSection`. That method
  is split into `BeginRequest`, `AwaitResponses` and `ExecuteCriticalSection`,
  and `ExecuteCriticalSection` into `EnterCriticalSection` and
  `ExitCriticalSection`. A caller can run inbound handlers between the
  parts, as concurrent gRPC handlers can. `Valid()` is the node invariant:
  - a released node owes nobody a release;
  - a wanting node has stamped its request;
  - the stamp is the node's own and is no later than its clock.
- `Scenarios` (`scenarios.dfy`): two concrete runs of one node, proved
  from the class contracts alone. One covers the grant/defer decision,
  including the identity tie-break. The other covers flushing two deferred
  peers at release.

Where this code departs from the classical protocol, the model follows the
code:

- `RequestAccess` answers `Granted: false` in both branches. The permission
  that counts is the `ReleaseAccess` call. A request that is not deferred
  gets that call at once (peer/peer.go:69-73).
- `DeferredResponses` is a list that is appended to without removing
  duplicates. It is not a set (peer/peer.go:67).
- `RequestCriticalSection` counts the successful answers but never checks
  the count. A transport error is one outcome like any other, so the node
  enters the critical section after one outcome per peer, whatever they were
  (peer/peer.go:113-136).
- `CurrentRequest` is not cleared on exit. It keeps the last request's stamp
  (peer/peer.go:140-164).
- `ResponseCount` is reset to 0 and never otherwise updated (peer/peer.go:101).

Timestamps are `nat`. Go compares strings by their UTF-8 bytes. UTF-8 keeps
code-point order, so comparing Dafny characters gives the same result.

## Model

| member | source | states |
|---|---|---|
| `Ordering.StrLess` | peer/peer.go:190 | an identity that sorts before another differs from it. The order itself is stated by the four lemmas below |
| `Ordering.StrLessIrreflexive` | peer/peer.go:190 | no identity sorts before itself |
| `Ordering.StrLessTransitive` | peer/peer.go:190 | the identity order on strings is transitive |
| `Ordering.StrLessTotal` | peer/peer.go:190 | of two different identities, one sorts before the other |
| `Ordering.StrLessAsymmetric` | peer/peer.go:190 | two identities never sort before each other both ways |
| `Ordering.IsHigherPriority` | peer/peer.go:185-193 | a winning request and the request it beats are both present and different, and the winner's timestamp is no later. That the order is strict and total is stated by `PriorityIrreflexive`, `PriorityAsymmetric`, `PriorityTransitive` and `PriorityTotal` |
| `Ordering.PriorityIrreflexive` | peer/peer.go:185-193 | no request has priority over itself |
| `Ordering.PriorityAsymmetric` | peer/peer.go:185-193 | if req1 has priority over req2, req2 does not have priority over req1 |
| `Ordering.PriorityTransitive` | peer/peer.go:185-193 | priority is transitive |
| `Ordering.PriorityTotal` | peer/peer.go:185-193 | for distinct (timestamp, identity) pairs, exactly one direction of the priority holds |
| `Lamport.Merge` | peer/peer.go:167-176 | the merged clock is strictly above both the old clock and the received timestamp, and is one more than one of them (that is, max + 1) |
| `Lamport.MergeAll` | peer/peer.go:119 | after merging a sequence of answers one by one, the clock has grown by at least one per answer |
| `Lamport.MergeAllAboveEach` | peer/peer.go:119 | after the merges, the clock is strictly above every timestamp received |
| `Lamport.MergeAllMonotone` | peer/peer.go:167-176 | merging the same timestamps from a larger clock never gives a smaller clock |
| `Peer.ReleasesFor` | peer/peer.go:155-163 | the drain emits exactly one release per list entry |
| `Peer.ReleasesForAt` | peer/peer.go:155-163 | the k-th release emitted goes to the k-th list entry (FIFO order). Every release carries the same sender and timestamp |
| `Peer.MergedTimestamps` | peer/peer.go:111-120 | the timestamps merged while waiting are at most two per outcome: an answered peer's answer and the release that fed its goroutine |
| `Peer.AnsweredCount` | peer/peer.go:111-134 | the number of answered peers is at most the number of outcomes |
| `Peer.AllAnsweredIff` | peer/peer.go:111-134 | the number of answers equals the number of outcomes if and only if no peer call failed |
| `Peer.TwoMergesPerAnswer` | peer/peer.go:111-120 | waiting merges exactly two timestamps per answered peer and none per failed call |
| `Peer.ShouldDefer` | peer/peer.go:66 | a node defers only while wanting or holding the critical section. A wanting node that is not in it defers only a different request that is no earlier than its own. That exactly one of two contenders defers is stated by `ContendersDeferExactlyOne` |
| `Peer.ContendersDeferExactlyOne` | peer/peer.go:66 | of two wanting nodes with distinct requests, exactly one defers the other |
| `Peer.ValidContendersDeferExactlyOne` | peer/peer.go:57-101 | two distinct valid nodes that both want the critical section and are not in it both hold a stamped request, and exactly one of them defers the other's |
| `Peer.Node.Valid` | peer/peer.go:88-164 | the node invariant: a released node owes nobody a release, a wanting node has stamped its request, and that stamp is its own and no later than its clock. Every state-changing method preserves it |
| `Peer.Node.constructor` | peer/peer.go:34-43 | a new node has clock 0, no peers, is released, and has no request, nothing deferred and nothing sent |
| `Peer.Node.ConnectToPeer` | peer/peer.go:45-54 | fails exactly when the client cannot be created. On success the peer is registered under its identity, replacing any earlier entry |
| `Peer.Node.UpdateLamportClock` | peer/peer.go:167-176 | the clock becomes the merge of the old clock and the message timestamp, and that value is returned. Nothing else changes |
| `Peer.Node.GetLamportClock` | peer/peer.go:178-183 | the clock goes up by exactly one and the new value is returned. Nothing else changes |
| `Peer.Node.SendReleaseMSG` | peer/peer.go:195-204 | exactly one release, from this node with the given timestamp, is added to the end of the outbox |
| `Peer.Node.RequestAccess` | peer/peer.go:57-74 | the clock is merged with the request's timestamp. The answer is always not granted, with the merged clock. When the guard defers, the requester is added to the end of the deferred list and nothing is sent. Otherwise the list is unchanged and one release with the merged clock goes to the requester. Valid is preserved |
| `Peer.Node.ReleaseAccess` | peer/peer.go:76-85 | the clock is merged with the release's timestamp, and the answer is acknowledged with the merged clock |
| `Peer.Node.BeginRequest` | peer/peer.go:88-101 | nothing changes while wanting or in the critical section. Otherwise the node wants it, the clock ticks once, the request is stamped with this node's id and the new clock, and the response count is 0 |
| `Peer.Node.TakeOutcome` | peer/peer.go:111-120 | a failed call leaves the clock unchanged and reports false. An answered call merges the answer's timestamp and the inbound release's timestamp, in the order they happened, and reports true. The release's merge is the one `ReleaseAccess` does (peer/peer.go:79) |
| `Peer.Node.AwaitResponses` | peer/peer.go:105-134 | consumes exactly one outcome per peer. The clock becomes the in-order merge of every answer's timestamp and of the release that fed each answered goroutine. The count is the number of answers |
| `Peer.Node.EnterCriticalSection` | peer/peer.go:140-145 | the node is in the critical section, and Valid is preserved |
| `Peer.Node.ExitCriticalSection` | peer/peer.go:147-164 | the node is released and the clock ticks once. One release per former deferred entry is sent, in list order, with that timestamp. The deferred list is empty |
| `Peer.Node.ExecuteCriticalSection` | peer/peer.go:140-164 | the node ends released, with one clock tick. The deferred list is flushed in FIFO order with the release timestamp and left empty |
| `Peer.Node.RequestCriticalSection` | peer/peer.go:88-138 | a no-op while wanting or holding. Otherwise the request carries the ticked clock and stays set after exit. Exactly one outcome per peer is consumed, and the critical section runs however many answers succeeded. The node ends released with nothing deferred, and the clock is the merges of the answers and their releases plus one release tick |
| `Scenarios.GrantDeferScenario` | peer/peer.go:45-101 | with node2 and node3 connected, a request while released gets a release at once. While node1 wants the CS with (5, node1), (5, node2) is deferred because node1 wins the tie. (3, node3) gets a release at once because it is earlier. Every answer is not granted |
| `Scenarios.DeferredFlushScenario` | peer/peer.go:45-164 | node2 and node3 are deferred while node1 wants the CS. Both peers grant at once, so each one's release (merged) reaches node1 before its answer (merged). Both count, and the clock goes from 6 to 10. At release (clock 11) each deferred peer gets exactly one release with that timestamp, in deferral order, and nothing stays deferred |

## Left out

- Concurrency: the goroutines, the `responses` channel, the capacity-1 `Release` channel and the mutexes `ReqMu`, `LamMu` and `CsMu` are not modelled. Every method is one atomic step. Inbound handlers can be run between the parts of an acquisition, but not inside `AwaitResponses` or between the steps of one handler.
- The `Release` channel: a successful answer's goroutine waits for a value on the node's release channel before reporting. Only an inbound `ReleaseAccess` puts one there, after merging its timestamp into the clock. A `Response` outcome carries that release and whether it came before the answer, and the model performs both merges. The channel is shared by all goroutines, so any peer's release can wake any goroutine, and a release can arrive after its answer. The model pairs each answer with one release, which may be any peer's. Releases that wake no goroutine and the blocking send in `ReleaseAccess` (peer/peer.go:82) are not modelled.
- Peer.Node.AwaitResponses: requires one outcome per peer (`|outcomes| == |peers|`). In the source each peer's goroutine sends exactly one value. The order of the sequence is the order of arrival.
- Peer.Node.RequestCriticalSection: also returns the count of successful answers so that it can be stated. The source computes it and discards it.
- gRPC: client creation, calls and transport errors in `SendReleaseMSG` are not modelled. A release call becomes an append to the outbox; the source only logs errors there. A peer client is represented by the address it was created for. Whether `grpc.NewClient` accepts a target is a parameter of `ConnectToPeer`.
- A release addressed to an identity that is not in `peers` makes the source call a method on a nil client, which panics (peer/peer.go:72,196). The model records it like any other release. The scenarios register every peer they release first.
- 64-bit wrap-around of `LamportClock++` and of the message timestamps: the model uses unbounded `nat`.
- Logging and the `time.Sleep` that stands for the critical-section body are not modelled. The `Address` field is kept as the constant `address`, set by the constructor; as in the source, nothing reads it.
- Safety and liveness of the whole protocol across nodes: these are not properties of one node's code, and the model has only one node.
- `main.go` (flag parsing, listening, connecting to peers, the request loop) and `stc/mutex.pb.go` (generated wire code) are not part of this model. Field types follow the use in `peer/peer.go`: a `LamportTimestamp` on requests and answers.
