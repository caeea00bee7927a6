/**
 * The election and heartbeat rules of `Node`, as pure functions of the
 * node's id and the incoming ring record: what the node sends on to its
 * right neighbour and how its leadership fields change.
 */
module Election {
  import opened Wrappers
  import opened Wire

  /** Seconds of heartbeat silence after which a follower gives up on its leader. */
  const HeartbeatTimeout: int := 6

  /** The leadership fields a ring record can change. */
  datatype Control = Control(leader: Option<int>, inElection: bool, lastHeartbeat: int)

  function Max(a: int, b: int): int
  {
    if a < b then b else a
  }

  /** Python's truth value of `leader_id`: `None` and `0` are both false. */
  predicate Truthy(leader: Option<int>)
  {
    leader.Some? && leader.value != 0
  }

  /**
   * The record a node with id `self` sends on after receiving `m`, if any.
   * An election record always produces one: the leader announcement when
   * the node's own id has come back, otherwise the larger of the two ids
   * (a smaller id is replaced, never dropped). Announcements and
   * heartbeats are passed on unchanged until they reach their originator.
   */
  function Reply(self: int, m: RingMsg): (r: Option<RingMsg>)
    ensures m.Election? && m.id == self ==> r == Some(Leader(self))
    ensures m.Election? && m.id != self ==> r == Some(Election(Max(m.id, self)))
    ensures !m.Election? ==> (r.Some? <==> m.id != self) && (r.Some? ==> r.value == m)
  {
    match m
    case Election(eid) =>
      if eid == self then Some(Leader(self))
      else if eid > self then Some(Election(eid))
      else Some(Election(self))
    case Leader(lid) => if lid != self then Some(Leader(lid)) else None
    case Heartbeat(lid) => if lid != self then Some(Heartbeat(lid)) else None
  }

  /** The leadership fields after a node with id `self` handles `m` at time `now`. */
  function Receive(self: int, c: Control, m: RingMsg, now: int): (r: Control)
    // an election record changes nothing unless it carries the receiver's own id
    ensures m.Election? && m.id != self ==> r == c
    ensures m.Election? && m.id == self ==>
      r.leader == Some(self) && !r.inElection && r.lastHeartbeat == c.lastHeartbeat
    // announcements and heartbeats adopt the named leader and refresh the timer
    ensures !m.Election? ==> r.leader == Some(m.id) && r.lastHeartbeat == now
    ensures m.Leader? ==> !r.inElection
    ensures m.Heartbeat? ==> r.inElection == c.inElection
    // nothing received ever sets the election flag
    ensures r.inElection ==> c.inElection
  {
    match m
    case Election(eid) =>
      if eid == self then c.(leader := Some(self), inElection := false) else c
    case Leader(lid) => Control(Some(lid), false, now)
    case Heartbeat(lid) => c.(leader := Some(lid), lastHeartbeat := now)
  }

  /** The fields after handling a whole sequence of records, all at time `now`. */
  function ReceiveAll(self: int, c: Control, ms: seq<RingMsg>, now: int): Control
  {
    if ms == [] then c else Receive(self, ReceiveAll(self, c, ms[..|ms| - 1], now), ms[|ms| - 1], now)
  }

  /** What a node sends on while handling a whole sequence of records, in order. */
  function RepliesAll(self: int, ms: seq<RingMsg>): seq<RingMsg>
  {
    if ms == [] then []
    else
      var r := Reply(self, ms[|ms| - 1]);
      RepliesAll(self, ms[..|ms| - 1]) + (if r.Some? then [r.value] else [])
  }

  /** Handling one more record applies its `Receive` step to the fields reached so far. */
  lemma ReceiveAllSnoc(self: int, c: Control, ms: seq<RingMsg>, m: RingMsg, now: int)
    ensures ReceiveAll(self, c, ms + [m], now) == Receive(self, ReceiveAll(self, c, ms, now), m, now)
  {
    assert (ms + [m])[..|ms|] == ms;
  }

  /** Handling one more record appends its reply, if any, to what was sent so far. */
  lemma RepliesAllSnoc(self: int, ms: seq<RingMsg>, m: RingMsg)
    ensures RepliesAll(self, ms + [m])
         == RepliesAll(self, ms) + (if Reply(self, m).Some? then [Reply(self, m).value] else [])
  {
    assert (ms + [m])[..|ms|] == ms;
  }

  /** Each record handled sends at most one record on; an election record exactly one. */
  lemma {:induction false} RepliesAllLength(self: int, ms: seq<RingMsg>)
    ensures |RepliesAll(self, ms)| <= |ms|
    ensures (forall i :: 0 <= i < |ms| ==> ms[i].Election?) ==> |RepliesAll(self, ms)| == |ms|
  {
    if ms != [] {
      RepliesAllLength(self, ms[..|ms| - 1]);
    }
  }
}
