/**
 * The `Node` object: its fields and one method per handler, each an atomic
 * step. Sending on the ring appends to `outbox` (nothing is sent while the
 * right neighbour is unknown), and text written to chat sessions is
 * appended to `clientWrites`.
 */
module Nodes {
  import opened Wrappers
  import opened Text
  import opened Wire
  import opened Election
  import opened Topology
  import opened Relay

  /** One ring record handed to the send path, with the neighbour it is addressed to. */
  datatype Envelope = Envelope(to: Peer, msg: RingMsg)

  /** The cooldown between two elections started by the maintainer, in seconds. */
  const ElectionCooldown: int := 2

  /** What the send path emits for an optional record: nothing without a neighbour or a record. */
  function Sent(neighbor: Option<Peer>, m: Option<RingMsg>): (out: seq<Envelope>)
    ensures |out| <= 1
    ensures out != [] <==> neighbor.Some? && m.Some?
    ensures out != [] ==> out[0] == Envelope(neighbor.value, m.value)
  {
    if neighbor.Some? && m.Some? then [Envelope(neighbor.value, m.value)] else []
  }

  /** What the send path emits for a sequence of records, in order. */
  function SendAll(neighbor: Option<Peer>, ms: seq<RingMsg>): seq<Envelope>
  {
    if ms == [] then [] else SendAll(neighbor, ms[..|ms| - 1]) + Sent(neighbor, Some(ms[|ms| - 1]))
  }

  /** Without a neighbour nothing is sent; with one, every record is sent to it, in order. */
  lemma {:induction false} SendAllAddressed(neighbor: Option<Peer>, ms: seq<RingMsg>)
    ensures neighbor.None? ==> SendAll(neighbor, ms) == []
    ensures neighbor.Some? ==> |SendAll(neighbor, ms)| == |ms|
    ensures neighbor.Some? ==> forall i :: 0 <= i < |ms| ==> SendAll(neighbor, ms)[i] == Envelope(neighbor.value, ms[i])
  {
    if ms != [] {
      SendAllAddressed(neighbor, ms[..|ms| - 1]);
    }
  }

  /**
   * Whether the maintainer starts an election when the neighbours go from
   * `(right, left)` to `(right', left')`: only on a change, only while no
   * leader is known and a right neighbour exists, only when no election is
   * under way and the cooldown since the last start has passed.
   */
  predicate StartsElection(right: Option<Peer>, left: Option<Peer>, right': Option<Peer>, left': Option<Peer>,
                           leader: Option<int>, electing: bool, lastStart: int, now: int)
  {
    && (right' != right || left' != left)
    && leader.None? && right'.Some?
    && !electing && now - lastStart > ElectionCooldown
  }

  lemma {:induction false} SendAllAppend(neighbor: Option<Peer>, a: seq<RingMsg>, b: seq<RingMsg>)
    ensures SendAll(neighbor, a + b) == SendAll(neighbor, a) + SendAll(neighbor, b)
  {
    if b != [] {
      assert (a + b)[..|a + b| - 1] == a + b[..|b| - 1];
      SendAllAppend(neighbor, a, b[..|b| - 1]);
    } else {
      assert a + b == a;
    }
  }

  /** Handling one more record on top of `done` extends the fields' fold and the sends by that record's step. */
  lemma HandleSnoc(neighbor: Option<Peer>, self: int, c0: Control, o0: seq<Envelope>, done: seq<RingMsg>, m: RingMsg, now: int)
    ensures ReceiveAll(self, c0, done + [m], now) == Receive(self, ReceiveAll(self, c0, done, now), m, now)
    ensures o0 + SendAll(neighbor, RepliesAll(self, done + [m]))
         == (o0 + SendAll(neighbor, RepliesAll(self, done))) + Sent(neighbor, Reply(self, m))
  {
    ReceiveAllSnoc(self, c0, done, m, now);
    SendRepliesSnoc(neighbor, self, done, m);
    var sent, more := SendAll(neighbor, RepliesAll(self, done)), Sent(neighbor, Reply(self, m));
    assert o0 + (sent + more) == (o0 + sent) + more;
  }

  /** A record's reply, sent, is what the fold over the extended run adds. */
  lemma SendRepliesSnoc(neighbor: Option<Peer>, self: int, ms: seq<RingMsg>, m: RingMsg)
    ensures SendAll(neighbor, RepliesAll(self, ms + [m])) == SendAll(neighbor, RepliesAll(self, ms)) + Sent(neighbor, Reply(self, m))
  {
    RepliesAllSnoc(self, ms, m);
    var r := Reply(self, m);
    var extra := if r.Some? then [r.value] else [];
    SendAllAppend(neighbor, RepliesAll(self, ms), extra);
    if r.Some? { assert SendAll(neighbor, extra) == Sent(neighbor, r) by { assert extra[..0] == []; } }
  }

  class Node {
    const id: int
    const localIp: string
    var known: map<int, Entry>
    var ringPort: Option<int>
    var clientPort: Option<int>
    var neighbor: Option<Peer>
    var left: Option<Peer>
    var leaderId: Option<int>
    var lastHeartbeat: int
    var inElection: bool
    var lastElectionStart: int
    var clients: seq<Conn>
    var outbox: seq<Envelope>
    var clientWrites: seq<Write>

    /** Both listeners are bound. */
    predicate Bound()
      reads this`ringPort, this`clientPort
    {
      ringPort.Some? && clientPort.Some?
    }

    /**
     * The node is always in its own table; every other entry came from a
     * parsed record and so has both ports, as has the node's own entry
     * once it is bound; a chat session is listed at most once.
     */
    ghost predicate Valid()
      reads this`known, this`ringPort, this`clientPort, this`clients
    {
      TableValid() && NoDup(clients)
    }

    /** The part of `Valid` about the table, which the chat side never changes. */
    ghost predicate TableValid()
      reads this`known, this`ringPort, this`clientPort
    {
      && id in known
      && (forall k :: k in known && k != id ==> PortsKnown(known[k]))
      && (Bound() ==> PortsKnown(known[id]))
    }

    /** The leadership fields. */
    function Ctl(): Control
      reads this`leaderId, this`inElection, this`lastHeartbeat
    {
      Control(leaderId, inElection, lastHeartbeat)
    }

    constructor (id: int, localIp: string, now: int)
      ensures this.id == id && this.localIp == localIp
      ensures known == map[id := Entry(localIp, None, None, now)]
      ensures ringPort == None && clientPort == None && neighbor == None && left == None
      ensures leaderId == None && lastHeartbeat == 0 && !inElection && lastElectionStart == 0
      ensures clients == [] && outbox == [] && clientWrites == []
      ensures Valid()
    {
      this.id := id;
      this.localIp := localIp;
      known := map[id := Entry(localIp, None, None, now)];
      ringPort := None;
      clientPort := None;
      neighbor := None;
      left := None;
      leaderId := None;
      lastHeartbeat := 0;
      inElection := false;
      lastElectionStart := 0;
      clients := [];
      outbox := [];
      clientWrites := [];
    }

    /** Records the ports the operating system assigned to the two listeners. */
    method BindListeners(rp: int, cp: int, now: int)
      requires Valid()
      modifies this`ringPort, this`clientPort, this`known
      ensures Valid() && Bound()
      ensures ringPort == Some(rp) && clientPort == Some(cp)
      ensures known == old(known)[id := Entry(localIp, Some(rp), Some(cp), now)]
    {
      ringPort := Some(rp);
      clientPort := Some(cp);
      known := known[id := Entry(localIp, ringPort, clientPort, now)];
    }

    /** The discovery datagram: once bound it parses back to the node's id, address and ports, and before the ring listener is bound it is rejected. */
    function HelloMessage(): (r: string)
      reads this`ringPort, this`clientPort
      ensures IsToken(localIp) && Bound() ==>
        ParseHello(r) == Some(Hello(id, localIp, ringPort.value, clientPort.value))
      ensures IsToken(localIp) && ringPort.None? ==> ParseHello(r) == None
    {
      var r := HelloText(id, localIp, ringPort, clientPort);
      if IsToken(localIp) && ringPort.Some? && clientPort.Some? then
        HelloRoundTrip(id, localIp, ringPort.value, clientPort.value); r
      else if IsToken(localIp) && ringPort.None? then
        UnboundHelloRejected(id, localIp, clientPort); r
      else r
    }

    /** One datagram for the discovery listener; a record it cannot use changes nothing. */
    method OnHello(data: string, now: int)
      requires Valid()
      modifies this`known
      ensures Valid()
      ensures known == Learn(old(known), ParseHello(data), now)
      ensures |Split(data)| < 5 || Split(data)[0] != "HELLO" ==> known == old(known)
    {
      var h := ParseHello(data);
      if h.Some? {
        known := known[h.value.id := Record(h.value, now)];
      }
    }

    /** `_send_ring_message`: the record goes to the right neighbour, if there is one. */
    method SendRing(m: RingMsg)
      modifies this`outbox
      ensures outbox == old(outbox) + Sent(neighbor, Some(m))
    {
      if neighbor.Some? {
        outbox := outbox + [Envelope(neighbor.value, m)];
      }
    }

    method StartElection()
      modifies this`outbox
      ensures outbox == old(outbox) + Sent(neighbor, Some(Election(id)))
    {
      SendRing(Election(id));
    }

    /**
     * One pass of the ring maintainer. `now` is the clock read for the trim,
     * `electionNow` the second read for the cooldown. Since the trim compares
     * the clock with the client port, in practice it evicts every peer on
     * every pass (see `TrimEvictsEveryPeer`).
     */
    method MaintainRing(now: int, electionNow: int)
      requires Valid() && Bound()
      modifies this`known, this`neighbor, this`left, this`inElection, this`lastElectionStart, this`outbox
      ensures Valid()
      ensures known == Trim(old(known), id, now)
      ensures neighbor == PeerAt(known, RightOf(known.Keys, id))
      ensures left == PeerAt(known, LeftOf(known.Keys, id))
      ensures var starts := StartsElection(old(neighbor), old(left), neighbor, left, leaderId,
                                           old(inElection), old(lastElectionStart), electionNow);
        && inElection == (old(inElection) || starts)
        && lastElectionStart == (if starts then electionNow else old(lastElectionStart))
        && outbox == old(outbox) + (if starts then Sent(neighbor, Some(Election(id))) else [])
    {
      TrimStale(now);
      // `if ids:` and `if self.id in ids:` both hold: the node is in its own table
      var right := RightOf(known.Keys, id);
      var l := LeftOf(known.Keys, id);
      UpdateNeighbours(PeerAt(known, right), PeerAt(known, l), electionNow);
    }

    /** The trim: deletes, one at a time, every entry the stale test selects. */
    method TrimStale(now: int)
      requires Valid() && Bound()
      modifies this`known
      ensures Valid()
      ensures known == Trim(old(known), id, now)
    {
      var torem := StaleIds(known, id, now);
      var pending := torem;
      while pending != {}
        invariant pending <= torem
        invariant known == old(known) - (torem - pending)
        decreases pending
      {
        HasElement(pending);
        var nid :| nid in pending;
        known := known - {nid};
        pending := pending - {nid};
      }
      assert torem - pending == torem;
    }

    /**
     * Adopts freshly computed neighbours. Only a change of either one
     * counts as a topology change, and only a topology change while no
     * leader is known and a right neighbour exists may start an election,
     * subject to the election flag and the cooldown.
     */
    method UpdateNeighbours(newNeighbor: Option<Peer>, newLeft: Option<Peer>, electionNow: int)
      modifies this`neighbor, this`left, this`inElection, this`lastElectionStart, this`outbox
      ensures neighbor == newNeighbor && left == newLeft
      ensures var starts := StartsElection(old(neighbor), old(left), newNeighbor, newLeft, leaderId,
                                           old(inElection), old(lastElectionStart), electionNow);
        && inElection == (old(inElection) || starts)
        && lastElectionStart == (if starts then electionNow else old(lastElectionStart))
        && outbox == old(outbox) + (if starts then Sent(neighbor, Some(Election(id))) else [])
    {
      if newNeighbor != neighbor || newLeft != left {
        neighbor := newNeighbor;
        left := newLeft;
        if leaderId.None? && neighbor.Some? {
          if !inElection && electionNow - lastElectionStart > ElectionCooldown {
            inElection := true;
            lastElectionStart := electionNow;
            StartElection();
          }
        }
      }
    }

    /** `_on_election_msg`: the LCR step, with no suppression of smaller ids. */
    method OnElectionMsg(eid: int)
      modifies this`leaderId, this`inElection, this`outbox
      ensures eid == id ==> leaderId == Some(id) && !inElection
      ensures eid != id ==> leaderId == old(leaderId) && inElection == old(inElection)
      ensures outbox == old(outbox) + Sent(neighbor, Some(if eid == id then Leader(id) else Election(Max(eid, id))))
    {
      if eid == id {
        leaderId := Some(id);
        inElection := false;
        SendRing(Leader(id));
      } else if eid > id {
        SendRing(Election(eid));
      } else {
        SendRing(Election(id));
      }
    }

    method OnLeaderMsg(lid: int, now: int)
      modifies this`leaderId, this`inElection, this`lastHeartbeat, this`outbox
      ensures leaderId == Some(lid) && !inElection && lastHeartbeat == now
      ensures outbox == old(outbox) + (if lid != id then Sent(neighbor, Some(Leader(lid))) else [])
    {
      leaderId := Some(lid);
      inElection := false;
      lastHeartbeat := now;
      if lid != id {
        SendRing(Leader(lid));
      }
    }

    method OnHeartbeat(lid: int, now: int)
      modifies this`leaderId, this`lastHeartbeat, this`outbox
      ensures leaderId == Some(lid) && lastHeartbeat == now
      ensures outbox == old(outbox) + (if lid != id then Sent(neighbor, Some(Heartbeat(lid))) else [])
    {
      leaderId := Some(lid);
      lastHeartbeat := now;
      if lid != id {
        SendRing(Heartbeat(lid));
      }
    }

    /** The dispatch on the command word: the node follows `Receive` and sends `Reply`. */
    method OnRingMsg(m: RingMsg, now: int)
      modifies this`leaderId, this`inElection, this`lastHeartbeat, this`outbox
      ensures Ctl() == Receive(id, old(Ctl()), m, now)
      ensures outbox == old(outbox) + Sent(neighbor, Reply(id, m))
    {
      match m
      case Election(eid) => OnElectionMsg(eid);
      case Leader(lid) => OnLeaderMsg(lid, now);
      case Heartbeat(lid) => OnHeartbeat(lid, now);
    }

    /**
     * One incoming ring connection carrying `data`. Blank lines and unknown
     * commands are skipped; a known command without a usable id raises and
     * ends the handler, so nothing after it is read.
     */
    method HandleRingConn(data: string, now: int)
      modifies this`leaderId, this`inElection, this`lastHeartbeat, this`outbox
      ensures Ctl() == ReceiveAll(id, old(Ctl()), RingMessages(Lines(data)), now)
      ensures outbox == old(outbox) + SendAll(neighbor, RepliesAll(id, RingMessages(Lines(data))))
    {
      var lines := Lines(data);
      var i := 0;
      var stop := false;
      ghost var c0, o0 := Ctl(), outbox;
      ghost var done: seq<RingMsg> := [];
      while i < |lines| && !stop
        invariant 0 <= i <= |lines|
        invariant !stop ==> RingMessages(lines) == done + RingMessages(lines[i..])
        invariant stop ==> RingMessages(lines) == done
        invariant Ctl() == ReceiveAll(id, c0, done, now)
        invariant outbox == o0 + SendAll(neighbor, RepliesAll(id, done))
        decreases |lines| - i, if stop then 0 else 1
      {
        RingMessagesStep(lines, i, done);
        var k := Classify(lines[i]);
        if k.Got? {
          HandleSnoc(neighbor, id, c0, o0, done, k.msg, now);
          OnRingMsg(k.msg, now);
          done := done + [k.msg];
          i := i + 1;
        } else if k == Skip {
          i := i + 1;
        } else {
          stop := true;
        }
      }
      if !stop {
        assert lines[i..] == [];
        assert done + RingMessages(lines[i..]) == done;
      }
    }

    /** One pass of the heartbeat loop. */
    method HeartbeatTick(now: int)
      modifies this`leaderId, this`outbox
      ensures old(leaderId) == Some(id) ==>
        leaderId == old(leaderId) && outbox == old(outbox) + Sent(neighbor, Some(Heartbeat(id)))
      ensures old(leaderId) != Some(id) && Truthy(old(leaderId)) && now - lastHeartbeat > HeartbeatTimeout ==>
        leaderId == None && outbox == old(outbox) + Sent(neighbor, Some(Election(id)))
      ensures old(leaderId) != Some(id) && !(Truthy(old(leaderId)) && now - lastHeartbeat > HeartbeatTimeout) ==>
        leaderId == old(leaderId) && outbox == old(outbox)
    {
      if leaderId == Some(id) {
        SendRing(Heartbeat(id));
      } else if Truthy(leaderId) && now - lastHeartbeat > HeartbeatTimeout {
        leaderId := None;
        StartElection();
      }
    }

    /** A new chat connection `c`: the leader welcomes and keeps it, any other node turns it away. */
    method AcceptClient(c: Conn)
      requires Valid() && c !in clients
      modifies this`clients, this`clientWrites
      ensures Valid()
      ensures leaderId == Some(id) ==>
        clients == old(clients) + [c] && clientWrites == old(clientWrites) + [Write(c, "WELCOME\n")]
      ensures leaderId != Some(id) ==>
        clients == old(clients) && clientWrites == old(clientWrites) + [Write(c, "NOT_LEADER\n")]
    {
      if leaderId == Some(id) {
        clientWrites := clientWrites + [Write(c, "WELCOME\n")];
        clients := clients + [c];
      } else {
        clientWrites := clientWrites + [Write(c, "NOT_LEADER\n")];
      }
    }

    /**
     * `_broadcast_to_clients`: writes `text` and a newline to a snapshot of
     * the sessions, then drops those whose write failed (`failed`).
     */
    method Broadcast(text: string, failed: set<Conn>)
      requires Valid()
      modifies this`clients, this`clientWrites
      ensures Valid()
      ensures clients == Without(old(clients), failed)
      ensures clientWrites == old(clientWrites) + Fanout(Without(old(clients), failed), text + ['\n'])
    {
      var snapshot := clients;
      var dead := WriteAll(snapshot, text + ['\n'], failed);
      Prune(snapshot, dead);
      WithoutSame(snapshot, Elements(dead), failed);
      WithoutNoDup(snapshot, failed);
    }

    /** The write loop of a broadcast: the sessions whose write failed are collected, in order. */
    method WriteAll(snapshot: seq<Conn>, line: string, failed: set<Conn>) returns (dead: seq<Conn>)
      modifies this`clientWrites
      ensures dead == Among(snapshot, failed)
      ensures clientWrites == old(clientWrites) + Fanout(Without(snapshot, failed), line)
    {
      dead := [];
      ghost var w0 := clientWrites;
      var i := 0;
      while i < |snapshot|
        invariant 0 <= i <= |snapshot|
        invariant dead == Among(snapshot[..i], failed)
        invariant clientWrites == w0 + Fanout(Without(snapshot[..i], failed), line)
      {
        var c := snapshot[i];
        assert snapshot[..i + 1] == snapshot[..i] + [c];
        if c in failed {
          WriteFailed(snapshot[..i], c, failed);
          dead := dead + [c];
        } else {
          WriteDone(snapshot[..i], c, failed, line, w0);
          clientWrites := clientWrites + [Write(c, line)];
        }
        i := i + 1;
      }
      assert snapshot[..i] == snapshot;
    }

    /** The pruning loop of a broadcast: each dead session still listed is removed. */
    method Prune(snapshot: seq<Conn>, dead: seq<Conn>)
      requires clients == snapshot && NoDup(snapshot) && NoDup(dead)
      modifies this`clients
      ensures clients == Without(snapshot, Elements(dead))
    {
      var j := 0;
      ghost var gone: set<Conn> := {};
      WithoutNone(snapshot);
      while j < |dead|
        invariant 0 <= j <= |dead|
        invariant gone == Elements(dead[..j])
        invariant clients == Without(snapshot, gone)
      {
        var d := dead[j];
        PruneStep(snapshot, dead, j, gone);
        if d in clients {
          clients := RemoveFirst(clients, d);
        }
        gone := gone + {d};
        j := j + 1;
      }
      assert dead[..j] == dead;
    }

    /**
     * Relays message number `count` of a session's run: the broadcast of
     * `msg` tagged with the node's id extends the run's writes by one fan-out.
     */
    method RelayMessage(msg: string, count: nat, ghost c0: seq<Conn>, ghost w0: seq<Write>,
                        ghost done: seq<string>, failing: seq<set<Conn>>)
      requires Valid() && count == |done|
      requires clients == AfterBroadcasts(c0, count, failing)
      requires clientWrites == w0 + BroadcastWrites(id, c0, done, failing)
      modifies this`clients, this`clientWrites
      ensures Valid()
      ensures clients == AfterBroadcasts(c0, count + 1, failing)
      ensures clientWrites == w0 + BroadcastWrites(id, c0, done + [msg], failing)
    {
      BroadcastWritesSnoc(id, c0, done, msg, failing, w0);
      Broadcast(ChatText(id, msg), FailedAt(failing, count));
    }

    /** One chat session's input: each non-empty line is relayed, tagged with the node's id. */
    method HandleClient(data: string, failing: seq<set<Conn>>)
      requires Valid()
      modifies this`clients, this`clientWrites
      ensures Valid()
      ensures clients == AfterBroadcasts(old(clients), |ChatMessages(Lines(data))|, failing)
      ensures clientWrites == old(clientWrites) + BroadcastWrites(id, old(clients), ChatMessages(Lines(data)), failing)
    {
      var lines := Lines(data);
      ghost var c0, w0 := clients, clientWrites;
      ghost var done: seq<string> := [];
      var i := 0;
      var count := 0;
      while i < |lines|
        invariant 0 <= i <= |lines|
        invariant Valid()
        invariant done == ChatMessages(lines[..i]) && count == |done|
        invariant clients == AfterBroadcasts(c0, count, failing)
        invariant clientWrites == w0 + BroadcastWrites(id, c0, done, failing)
      {
        var msg := lines[i];
        ChatMessagesSnoc(lines, i);
        if msg != [] {
          RelayMessage(msg, count, c0, w0, done, failing);
          done := done + [msg];
          count := count + 1;
        }
        i := i + 1;
      }
      assert lines[..i] == lines;
    }
  }
}
