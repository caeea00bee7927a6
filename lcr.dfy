/**
 * A stable ring of nodes running the election, heartbeat and announcement
 * rules of `Election.Reply`. Node `p` of the ring has id `ids[p]` and sends
 * only to node `p + 1` (wrapping to `0`). A circulation starts when node
 * `s` sends `first` to its right neighbour; `Hop(k)` is the record on the
 * k-th hop, and each receiving node answers with what `Reply` sends on.
 */
module Lcr {
  import opened Wrappers
  import opened Wire
  import opened Election
  import Topology

  ghost predicate Distinct(ids: seq<int>)
  {
    forall i, j :: 0 <= i < |ids| && 0 <= j < |ids| && i != j ==> ids[i] != ids[j]
  }

  /** The right neighbour of position `p` on a ring of `n` nodes. */
  function Next(n: nat, p: nat): (q: nat)
    requires p < n
    ensures q < n
  {
    if p + 1 == n then 0 else p + 1
  }

  /** The position `k` hops to the right of `p`. */
  function Pos(n: nat, p: nat, k: nat): (q: nat)
    requires p < n
    ensures q < n
  {
    if k == 0 then p else Next(n, Pos(n, p, k - 1))
  }

  lemma {:induction false} PosLinear(n: nat, p: nat, k: nat)
    requires p < n && k <= n
    ensures Pos(n, p, k) == if p + k < n then p + k else p + k - n
  {
    if k > 0 { PosLinear(n, p, k - 1); }
  }

  lemma {:induction false} PosAdd(n: nat, p: nat, a: nat, b: nat)
    requires p < n
    ensures Pos(n, p, a + b) == Pos(n, Pos(n, p, a), b)
  {
    if b > 0 { PosAdd(n, p, a, b - 1); }
  }

  /** Walking fewer than `n` hops never returns to the start. */
  lemma PosNoReturn(n: nat, p: nat, j: nat)
    requires p < n && 0 < j < n
    ensures Pos(n, p, j) != p
  {
    PosLinear(n, p, j);
  }

  /** Within one circuit, different hop counts reach different positions. */
  lemma PosInjective(n: nat, p: nat, i: nat, k: nat)
    requires p < n && i < k < n
    ensures Pos(n, p, i) != Pos(n, p, k)
  {
    PosLinear(n, p, i);
    PosLinear(n, p, k);
  }

  /** Walking exactly `n` hops returns to the start. */
  lemma PosRound(n: nat, p: nat)
    requires p < n
    ensures Pos(n, p, n) == p
  {
    PosLinear(n, p, n);
  }

  /** The number of hops from `p` to `q`, less than `n`. */
  function Dist(n: nat, p: nat, q: nat): (d: nat)
    requires p < n && q < n
    ensures d < n && Pos(n, p, d) == q
  {
    var d := if p <= q then q - p else q + n - p;
    PosLinear(n, p, d);
    d
  }

  /** The number of hops, from 1 to `n`, after which a walk from `p` first reaches `q`. */
  function Reach(n: nat, p: nat, q: nat): (d: nat)
    requires p < n && q < n
    ensures 1 <= d <= n && Pos(n, p, d) == q
  {
    if p == q then PosRound(n, p); n else Dist(n, p, q)
  }

  /** The id of the node `k` hops right of `s`. */
  function At(ids: seq<int>, s: nat, k: nat): int
    requires s < |ids|
  {
    ids[Pos(|ids|, s, k)]
  }

  /** The position holding the largest id. */
  function ArgMax(ids: seq<int>): (m: nat)
    requires |ids| > 0
    ensures m < |ids| && forall i :: 0 <= i < |ids| ==> ids[i] <= ids[m]
  {
    if |ids| == 1 then 0
    else
      var r := ArgMax(ids[..|ids| - 1]);
      assert forall i :: 0 <= i < |ids| - 1 ==> ids[i] == ids[..|ids| - 1][i];
      if ids[|ids| - 1] > ids[r] then |ids| - 1 else r
  }

  function MaxOf(ids: seq<int>): int
    requires |ids| > 0
  {
    ids[ArgMax(ids)]
  }

  /** The largest id among the first `k` nodes of the walk from `s`. */
  function MaxSeg(ids: seq<int>, s: nat, k: nat): int
    requires s < |ids| && k >= 1
  {
    if k == 1 then At(ids, s, 0) else Max(MaxSeg(ids, s, k - 1), At(ids, s, k - 1))
  }

  lemma {:induction false} MaxSegAbove(ids: seq<int>, s: nat, k: nat, i: nat)
    requires s < |ids| && i < k
    ensures At(ids, s, i) <= MaxSeg(ids, s, k)
  {
    if i < k - 1 { MaxSegAbove(ids, s, k - 1, i); }
  }

  lemma {:induction false} MaxSegWitness(ids: seq<int>, s: nat, k: nat) returns (i: nat)
    requires s < |ids| && k >= 1
    ensures i < k && MaxSeg(ids, s, k) == At(ids, s, i)
  {
    if k == 1 {
      i := 0;
    } else {
      i := MaxSegWitness(ids, s, k - 1);
      if MaxSeg(ids, s, k) != At(ids, s, i) { i := k - 1; }
    }
  }

  /** Once the walk has covered the whole ring, its maximum is the ring's maximum. */
  lemma MaxSegFull(ids: seq<int>, s: nat, k: nat)
    requires s < |ids| && k >= |ids|
    ensures MaxSeg(ids, s, k) == MaxOf(ids)
  {
    var n, m := |ids|, ArgMax(ids);
    var i := MaxSegWitness(ids, s, k);
    var d := Dist(n, s, m);
    MaxSegAbove(ids, s, k, d);
  }

  /** The record on the k-th hop of the circulation `first` started by node `s`. */
  function Hop(ids: seq<int>, s: nat, first: RingMsg, k: nat): Option<RingMsg>
    requires s < |ids| && k >= 1
  {
    if k == 1 then Some(first)
    else match Hop(ids, s, first, k - 1)
      case None => None
      case Some(m) => Reply(At(ids, s, k - 1), m)
  }

  /** The hop on which the election started by `s` reaches the largest id carrying that id. */
  function DeclareHop(ids: seq<int>, s: nat): nat
    requires s < |ids|
  {
    |ids| + Dist(|ids|, s, ArgMax(ids))
  }

  /** Hop `DeclareHop` is received by the node with the largest id. */
  lemma DeclarerIsMax(ids: seq<int>, s: nat)
    requires s < |ids|
    ensures Pos(|ids|, s, DeclareHop(ids, s)) == ArgMax(ids)
  {
    var n := |ids|;
    PosAdd(n, s, n, Dist(n, s, ArgMax(ids)));
    PosRound(n, s);
  }

  /** Within the first circuit the carried maximum is some other node's id. */
  lemma NotDeclaredFirstCircuit(ids: seq<int>, s: nat, k: nat)
    requires Distinct(ids) && s < |ids|
    requires 1 <= k < |ids|
    ensures MaxSeg(ids, s, k) != At(ids, s, k)
  {
    var i := MaxSegWitness(ids, s, k);
    PosInjective(|ids|, s, i, k);
    assert ids[Pos(|ids|, s, i)] != ids[Pos(|ids|, s, k)];
  }

  /** In the second circuit the walk reaches the largest id only at `DeclareHop`. */
  lemma SecondCircuitMisses(n: nat, s: nat, m: nat, k: nat)
    requires s < n && m < n
    requires n <= k < n + Dist(n, s, m)
    ensures Pos(n, s, k) != m
  {
    var d := Dist(n, s, m);
    PosAdd(n, s, n, k - n);
    PosRound(n, s);
    PosLinear(n, s, k - n);
    PosLinear(n, s, d);
  }

  /** Before `DeclareHop`, the id carried never equals the receiver's. */
  lemma NotDeclaredBefore(ids: seq<int>, s: nat, k: nat)
    requires Distinct(ids) && s < |ids|
    requires 1 <= k < DeclareHop(ids, s)
    ensures MaxSeg(ids, s, k) != At(ids, s, k)
  {
    if k < |ids| {
      NotDeclaredFirstCircuit(ids, s, k);
    } else {
      MaxSegFull(ids, s, k);
      SecondCircuitMisses(|ids|, s, ArgMax(ids), k);
    }
  }

  lemma {:induction false} ElectionPhase(ids: seq<int>, s: nat, k: nat)
    requires Distinct(ids) && s < |ids|
    requires 1 <= k <= DeclareHop(ids, s)
    ensures Hop(ids, s, Election(ids[s]), k) == Some(Election(MaxSeg(ids, s, k)))
  {
    if k > 1 {
      ElectionPhase(ids, s, k - 1);
      NotDeclaredBefore(ids, s, k - 1);
    }
  }

  lemma {:induction false} AnnouncePhase(ids: seq<int>, s: nat, k: nat)
    requires Distinct(ids) && s < |ids|
    requires DeclareHop(ids, s) < k <= DeclareHop(ids, s) + |ids|
    ensures Hop(ids, s, Election(ids[s]), k) == Some(Leader(MaxOf(ids)))
  {
    var n, kd, m := |ids|, DeclareHop(ids, s), ArgMax(ids);
    DeclarerIsMax(ids, s);
    if k == kd + 1 {
      ElectionPhase(ids, s, kd);
      MaxSegFull(ids, s, kd);
    } else {
      AnnouncePhase(ids, s, k - 1);
      PosAdd(n, s, kd, k - 1 - kd);
      PosNoReturn(n, m, k - 1 - kd);
    }
  }

  lemma {:induction false} Stopped(ids: seq<int>, s: nat, k: nat)
    requires Distinct(ids) && s < |ids|
    requires k > DeclareHop(ids, s) + |ids|
    ensures Hop(ids, s, Election(ids[s]), k) == None
  {
    var n, kd, m := |ids|, DeclareHop(ids, s), ArgMax(ids);
    if k == kd + n + 1 {
      AnnouncePhase(ids, s, kd + n);
      DeclarerIsMax(ids, s);
      PosAdd(n, s, kd, n);
      PosRound(n, m);
    } else {
      Stopped(ids, s, k - 1);
    }
  }

  /** Until the declaration, every hop carries an election record with the largest id seen so far. */
  ghost predicate CarriesMax(ids: seq<int>, s: nat)
    requires s < |ids|
  {
    forall k :: 1 <= k <= DeclareHop(ids, s) ==>
      Hop(ids, s, Election(ids[s]), k) == Some(Election(MaxSeg(ids, s, k)))
  }

  lemma ElectionCarriesMax(ids: seq<int>, s: nat)
    requires Distinct(ids) && s < |ids|
    ensures CarriesMax(ids, s)
  {
    forall k | 1 <= k <= DeclareHop(ids, s)
      ensures Hop(ids, s, Election(ids[s]), k) == Some(Election(MaxSeg(ids, s, k)))
    {
      ElectionPhase(ids, s, k);
    }
  }

  /** The only hop delivering an election record to the node whose id it carries is `DeclareHop`. */
  ghost predicate DeclaresOnce(ids: seq<int>, s: nat)
    requires s < |ids|
  {
    forall k :: 1 <= k && Hop(ids, s, Election(ids[s]), k) == Some(Election(At(ids, s, k))) ==>
      k == DeclareHop(ids, s)
  }

  /** Hop `DeclareHop` delivers an election record carrying the receiver's own id: the receiver declares itself. */
  lemma {:induction false} Declared(ids: seq<int>, s: nat)
    requires Distinct(ids) && s < |ids|
    ensures Hop(ids, s, Election(ids[s]), DeclareHop(ids, s)) == Some(Election(At(ids, s, DeclareHop(ids, s))))
  {
    ElectionPhase(ids, s, DeclareHop(ids, s));
    MaxSegFull(ids, s, DeclareHop(ids, s));
    DeclarerIsMax(ids, s);
  }

  /** Exactly one hop delivers an election record carrying the receiver's own id: hop `DeclareHop`. */
  lemma OnlyOneDeclares(ids: seq<int>, s: nat)
    requires Distinct(ids) && s < |ids|
    ensures Hop(ids, s, Election(ids[s]), DeclareHop(ids, s)) == Some(Election(At(ids, s, DeclareHop(ids, s))))
    ensures DeclaresOnce(ids, s)
  {
    Declared(ids, s);
    var n, kd := |ids|, DeclareHop(ids, s);
    forall k | 1 <= k && Hop(ids, s, Election(ids[s]), k) == Some(Election(At(ids, s, k)))
      ensures k == kd
    {
      if k < kd {
        ElectionPhase(ids, s, k);
        NotDeclaredBefore(ids, s, k);
      } else if kd < k <= kd + n {
        AnnouncePhase(ids, s, k);
      } else if k > kd + n {
        Stopped(ids, s, k);
      }
    }
  }

  /** The announcement of the largest id occupies the `n` hops after the declaration and reaches every node. */
  ghost predicate AnnouncesToAll(ids: seq<int>, s: nat)
    requires s < |ids|
  {
    && (forall k :: DeclareHop(ids, s) < k <= DeclareHop(ids, s) + |ids| ==>
          Hop(ids, s, Election(ids[s]), k) == Some(Leader(MaxOf(ids))))
    && (forall p :: 0 <= p < |ids| ==> Pos(|ids|, s, DeclareHop(ids, s) + Reach(|ids|, ArgMax(ids), p)) == p)
  }

  lemma AnnouncementReachesAll(ids: seq<int>, s: nat)
    requires Distinct(ids) && s < |ids|
    ensures AnnouncesToAll(ids, s)
  {
    var n, kd, m := |ids|, DeclareHop(ids, s), ArgMax(ids);
    forall k | kd < k <= kd + n ensures Hop(ids, s, Election(ids[s]), k) == Some(Leader(MaxOf(ids))) {
      AnnouncePhase(ids, s, k);
    }
    DeclarerIsMax(ids, s);
    forall p | 0 <= p < n ensures Pos(n, s, kd + Reach(n, m, p)) == p {
      PosAdd(n, s, kd, Reach(n, m, p));
    }
  }

  /** After the announcement returns to the new leader, nothing more is sent. */
  ghost predicate Quiesces(ids: seq<int>, s: nat)
    requires s < |ids|
  {
    forall k :: k > DeclareHop(ids, s) + |ids| ==> Hop(ids, s, Election(ids[s]), k) == None
  }

  lemma ElectionQuiesces(ids: seq<int>, s: nat)
    requires Distinct(ids) && s < |ids|
    ensures Quiesces(ids, s)
  {
    forall k | k > DeclareHop(ids, s) + |ids| ensures Hop(ids, s, Election(ids[s]), k) == None {
      Stopped(ids, s, k);
    }
  }

  /**
   * The election started by any node `s` of a stable ring of distinct ids:
   * election records carry the largest id seen so far; exactly one node,
   * the one with the largest id, receives its own id back and announces
   * itself; the announcement passes every node once (node `p` receives it
   * on hop `DeclareHop + Reach(n, ArgMax, p)`) and stops at its
   * originator, after which nothing more is sent.
   */
  lemma LcrElectsMaximum(ids: seq<int>, s: nat)
    requires Distinct(ids) && s < |ids|
    ensures Pos(|ids|, s, DeclareHop(ids, s)) == ArgMax(ids)
    ensures At(ids, s, DeclareHop(ids, s)) == MaxOf(ids)
    ensures CarriesMax(ids, s) && DeclaresOnce(ids, s) && AnnouncesToAll(ids, s) && Quiesces(ids, s)
  {
    DeclarerIsMax(ids, s);
    assert CarriesMax(ids, s) by { ElectionCarriesMax(ids, s); }
    assert DeclaresOnce(ids, s) by { OnlyOneDeclares(ids, s); }
    assert AnnouncesToAll(ids, s) by { AnnouncementReachesAll(ids, s); }
    assert Quiesces(ids, s) by { ElectionQuiesces(ids, s); }
  }

  /**
   * An announcement or heartbeat sent by node `s` with its own id visits
   * every node once, unchanged (node `p` receives it on hop
   * `Reach(n, s, p)`), and is not sent on by `s` when it comes back: it
   * stops after exactly one circuit.
   */
  lemma {:induction false} OneCircuit(ids: seq<int>, s: nat, first: RingMsg)
    requires Distinct(ids) && s < |ids|
    requires (first.Leader? || first.Heartbeat?) && first.id == ids[s]
    ensures forall k :: 1 <= k <= |ids| ==> Hop(ids, s, first, k) == Some(first)
    ensures Hop(ids, s, first, |ids| + 1) == None
  {
    var n := |ids|;
    forall k | 1 <= k <= n ensures Hop(ids, s, first, k) == Some(first) {
      CircuitPrefix(ids, s, first, k);
    }
    CircuitPrefix(ids, s, first, n);
    PosRound(n, s);
  }

  lemma {:induction false} CircuitPrefix(ids: seq<int>, s: nat, first: RingMsg, k: nat)
    requires Distinct(ids) && s < |ids|
    requires (first.Leader? || first.Heartbeat?) && first.id == ids[s]
    requires 1 <= k <= |ids|
    ensures Hop(ids, s, first, k) == Some(first)
  {
    if k > 1 {
      CircuitPrefix(ids, s, first, k - 1);
      PosNoReturn(|ids|, s, k - 1);
    }
  }

  /**
   * The ring the maintainer builds is this ring: the right neighbour of
   * position `p` of the sorted ids is position `Next(n, p)`.
   */
  lemma SortedRingRight(keys: set<int>, p: nat)
    requires p < |Topology.SortedIds(keys)|
    ensures Topology.RightOf(keys, Topology.SortedIds(keys)[p]) == Topology.SortedIds(keys)[Next(|Topology.SortedIds(keys)|, p)]
  {
    var ids := Topology.SortedIds(keys);
    var i := Topology.IndexOf(ids, ids[p]);
    assert i == p by {
      Topology.SortedIdsIncreasing(keys);
      Topology.IndexOfIncreasing(ids, p);
    }
    Topology.WrapUp(|ids|, p);
    assert Topology.RightOf(keys, ids[p]) == ids[(i + 1) % |ids|];
  }

  /** Likewise the left neighbour of position `Next(n, p)` is position `p`. */
  lemma SortedRingLeft(keys: set<int>, p: nat)
    requires p < |Topology.SortedIds(keys)|
    ensures Topology.LeftOf(keys, Topology.SortedIds(keys)[Next(|Topology.SortedIds(keys)|, p)]) == Topology.SortedIds(keys)[p]
  {
    var ids := Topology.SortedIds(keys);
    var q := Next(|ids|, p);
    var i := Topology.IndexOf(ids, ids[q]);
    assert i == q by {
      Topology.SortedIdsIncreasing(keys);
      Topology.IndexOfIncreasing(ids, q);
    }
    Topology.WrapDown(|ids|, q);
    assert Topology.LeftOf(keys, ids[q]) == ids[(i - 1) % |ids|];
  }

  /** The sorted ids are distinct, as the ring of this module requires. */
  lemma SortedRingDistinct(keys: set<int>)
    ensures Distinct(Topology.SortedIds(keys))
  {
    Topology.SortedIdsIncreasing(keys);
  }
}
