/** The Lamport clock rules of peer/peer.go:167-183, on values. The class
    methods Peer.Node.UpdateLamportClock and Peer.Node.GetLamportClock apply
    them to the node's clock in place. */
module Lamport {

  /** Merge on receipt: `clock = max(clock, msg) + 1`. The result is the least
      value strictly above both the local clock and the received timestamp. */
  function Merge(clock: nat, msg: nat): (r: nat)
    ensures r > clock && r > msg
    ensures r == clock + 1 || r == msg + 1
  {
    if msg > clock then msg + 1 else clock + 1
  }

  /** The clock after merging the timestamps `msgs` one after the other,
      in order, starting from `clock`. */
  function MergeAll(clock: nat, msgs: seq<nat>): (r: nat)
    ensures r >= clock + |msgs|
    decreases |msgs|
  {
    if msgs == [] then clock
    else Merge(MergeAll(clock, msgs[..|msgs| - 1]), msgs[|msgs| - 1])
  }

  /** After the merges the clock is above every timestamp received. */
  lemma {:induction false} MergeAllAboveEach(clock: nat, msgs: seq<nat>, k: nat)
    requires k < |msgs|
    ensures MergeAll(clock, msgs) > msgs[k]
    decreases |msgs|
  {
    if k < |msgs| - 1 {
      MergeAllAboveEach(clock, msgs[..|msgs| - 1], k);
    }
  }

  /** Merging one more timestamp is one more application of the rule. */
  lemma MergeAllSnoc(clock: nat, msgs: seq<nat>, msg: nat)
    ensures MergeAll(clock, msgs + [msg]) == Merge(MergeAll(clock, msgs), msg)
  {
    assert (msgs + [msg])[..|msgs|] == msgs;
  }

  /** Merging is monotone in the local clock: a node that starts ahead stays
      at least as far ahead after the same messages. */
  lemma {:induction false} MergeAllMonotone(c1: nat, c2: nat, msgs: seq<nat>)
    requires c1 <= c2
    ensures MergeAll(c1, msgs) <= MergeAll(c2, msgs)
    decreases |msgs|
  {
    if msgs != [] {
      MergeAllMonotone(c1, c2, msgs[..|msgs| - 1]);
    }
  }
}
