/** Requests and the priority order between them (peer/peer.go:185-193).
    A request is the pair (NodeId, LamportTimestamp) that a node stamps when
    it asks for the critical section; the node whose request is lower in the
    order (timestamp first, then node identity) has priority. */
module Ordering {

  datatype Option<+T> = None | Some(value: T)

  /** An access request as carried on the wire: who asks, and when. */
  datatype Request = Request(nodeId: string, lamportTimestamp: nat)

  /** Go's `<` on strings: lexicographic comparison. Go compares the UTF-8
      bytes; since UTF-8 preserves code-point order, comparing the code
      points (Dafny's `char`) gives the same answer. */
  predicate StrLess(a: string, b: string)
    ensures StrLess(a, b) ==> a != b
  {
    if |a| == 0 then |b| > 0
    else if |b| == 0 then false
    else if a[0] != b[0] then a[0] < b[0]
    else StrLess(a[1..], b[1..])
  }

  lemma {:induction false} StrLessIrreflexive(a: string)
    ensures !StrLess(a, a)
  {
    if |a| > 0 {
      StrLessIrreflexive(a[1..]);
    }
  }

  lemma {:induction false} StrLessTransitive(a: string, b: string, c: string)
    requires StrLess(a, b) && StrLess(b, c)
    ensures StrLess(a, c)
  {
    if |a| > 0 && |b| > 0 && |c| > 0 && a[0] == b[0] && b[0] == c[0] {
      StrLessTransitive(a[1..], b[1..], c[1..]);
    }
  }

  /** Two different strings are always ordered one way or the other. */
  lemma {:induction false} StrLessTotal(a: string, b: string)
    requires a != b
    ensures StrLess(a, b) || StrLess(b, a)
  {
    if |a| > 0 && |b| > 0 && a[0] == b[0] {
      assert a == [a[0]] + a[1..] && b == [b[0]] + b[1..];
      StrLessTotal(a[1..], b[1..]);
    }
  }

  lemma {:induction false} StrLessAsymmetric(a: string, b: string)
    requires StrLess(a, b)
    ensures !StrLess(b, a)
  {
    if StrLess(b, a) {
      StrLessTransitive(a, b, a);
      StrLessIrreflexive(a);
    }
  }

  /** `isHigherPriority(req1, req2)`: an absent (nil) request never wins;
      otherwise the lower timestamp wins, and on equal timestamps the lower
      node identity wins. */
  predicate IsHigherPriority(req1: Option<Request>, req2: Option<Request>)
    ensures IsHigherPriority(req1, req2) ==>
      req1.Some? && req2.Some? && req1.value != req2.value &&
      req1.value.lamportTimestamp <= req2.value.lamportTimestamp
  {
    if req1.None? || req2.None? then false
    else if req1.value.lamportTimestamp == req2.value.lamportTimestamp
    then StrLess(req1.value.nodeId, req2.value.nodeId)
    else req1.value.lamportTimestamp < req2.value.lamportTimestamp
  }

  lemma PriorityIrreflexive(r: Option<Request>)
    ensures !IsHigherPriority(r, r)
  {
    if r.Some? {
      StrLessIrreflexive(r.value.nodeId);
    }
  }

  lemma PriorityAsymmetric(r1: Option<Request>, r2: Option<Request>)
    requires IsHigherPriority(r1, r2)
    ensures !IsHigherPriority(r2, r1)
  {
    if r1.value.lamportTimestamp == r2.value.lamportTimestamp {
      StrLessAsymmetric(r1.value.nodeId, r2.value.nodeId);
    }
  }

  lemma PriorityTransitive(r1: Option<Request>, r2: Option<Request>, r3: Option<Request>)
    requires IsHigherPriority(r1, r2) && IsHigherPriority(r2, r3)
    ensures IsHigherPriority(r1, r3)
  {
    if r1.value.lamportTimestamp == r2.value.lamportTimestamp == r3.value.lamportTimestamp {
      StrLessTransitive(r1.value.nodeId, r2.value.nodeId, r3.value.nodeId);
    }
  }

  /** For two distinct (timestamp, identity) pairs exactly one direction holds:
      the order is strict and total, so there are no ties. */
  lemma PriorityTotal(r1: Request, r2: Request)
    requires r1 != r2
    ensures IsHigherPriority(Some(r1), Some(r2)) != IsHigherPriority(Some(r2), Some(r1))
  {
    if r1.lamportTimestamp == r2.lamportTimestamp {
      StrLessTotal(r1.nodeId, r2.nodeId);
      if StrLess(r1.nodeId, r2.nodeId) {
        StrLessAsymmetric(r1.nodeId, r2.nodeId);
      } else {
        StrLessAsymmetric(r2.nodeId, r1.nodeId);
      }
    }
  }
}
