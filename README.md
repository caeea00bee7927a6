# Ring node: discovery, LCR election, heartbeat and chat relay

This project models the coordination logic of the `Node` class in
`nodes/node.py`: a process that finds its peers by multicast `HELLO`
records, arranges all known nodes in a ring ordered by id, elects a leader
with a variant of Le Lann–Chang–Roberts (LCR), keeps the leader alive with
heartbeats that circulate the ring, and, when it is the leader, relays chat
lines to every connected chat session.

Each handler of the node is one atomic step, i.e. one method of the class
`Nodes.Node`:
- Sending a ring record appends an envelope (neighbour, record) to `outbox`.
  Nothing is sent while the right neighbour is unknown.
- Text written to a chat session is appended to `clientWrites`.
- The clock is an integer parameter (`now`).
- The operating-system facts the node cannot compute are parameters too:
  - the bound ports;
  - the sessions whose write fails (`failed`, or one set per broadcast in `failing`).

The pure parts are functions in their own modules:
- `Text`: `split()`, line splitting, and `f"{n}"` / `int()`.
- `Wire`: the `HELLO` and ring-record formats.
- `Election`: the pure reply and receive rules.
- `Topology`: the table, the trim and the neighbours.
- `Relay`: the chat fan-out as a value.

`Lcr` runs the election rules on a stable ring of distinct ids and proves that the largest id is elected. Several elections may run at once, since every node's maintainer and the heartbeat timeout can start one. `Election.Reply` depends only on the receiver's id and the incoming record, never on the node's state, so concurrent elections do not interact, and the one-election theorem applies to each of them.

Where the code departs from textbook LCR, or does something its comments do not suggest, the model follows the code:
- a smaller incoming id is always replaced by the receiver's own (no participant suppression);
- only the ring maintainer sets `in_election`;
- a failed send is dropped, neither retried nor reported;
- the trim compares the clock with the client port (`v[2]`), not with the `last_seen` field (`v[3]`). With a real clock this evicts every peer on every pass (`Topology.TrimEvictsEveryPeer`).

## Model

| member | source | states |
|---|---|---|
| Text.SplitUnwords | nodes/node.py:136 | words free of whitespace, joined by single spaces as the f-strings do, split back into exactly those words |
| Text.SplitEmptyIffBlank | nodes/node.py:211-213 | `split()` yields nothing exactly when `strip()` empties the line |
| Text.IntToStringIsToken | nodes/node.py:121 | a rendered integer is one non-empty whitespace-free token |
| Text.ParseIntToString | nodes/node.py:138-141 | `int()` of the decimal rendering of any integer, negative ones included, gives the integer back |
| Text.LinesCons | nodes/node.py:210 | reading a stream that starts with a line free of line breaks and a newline yields that line first, then the lines of the rest |
| Wire.ParseHello | nodes/node.py:136-141 | a datagram with fewer than five tokens or a first token other than `HELLO` is rejected; otherwise it is accepted exactly when the second, fourth and fifth tokens are integers, and the record holds `int()` of those as id, ring port and client port and the third token as host |
| Wire.HelloRoundTrip | nodes/node.py:121-141 | the datagram a bound node builds parses back to exactly its id, host, ring port and client port |
| Wire.UnboundHelloRejected | nodes/node.py:121-141 | a datagram sent before the ring listener is bound carries `None`, which `int()` rejects, so it is not accepted |
| Wire.Classify | nodes/node.py:211-225 | a line is skipped exactly when it is blank or its first word is not a command; a known command with an integer second word is always parsed, and a parsed record carries the line's command word and the integer of its second word |
| Wire.CommandDecodes | nodes/node.py:216-225 | the command word of every record is a command, and the dispatch on it rebuilds the same kind of record |
| Wire.MalformedEndsConn | nodes/node.py:215-225 | a known command without a usable id ends the connection: the records delivered are exactly those of the lines before it |
| Wire.SkipInvisible | nodes/node.py:211-225 | a blank line or an unknown command delivers nothing: the connection delivers the same records as without that line |
| Wire.RingRoundTrip | nodes/node.py:215-225 | every record the node formats is read back as the same command and id |
| Wire.BlankLineSkipped | nodes/node.py:211-213 | a blank line is skipped |
| Wire.RingTextOneLine | nodes/node.py:281 | a formatted record holds no line break, so with its newline it is exactly one line |
| Wire.StreamRoundTrip | nodes/node.py:207-225 | reading back any sequence of sent records, newline-terminated, yields exactly those records in order |
| Election.Reply | nodes/node.py:287-315 | own id back: send the leader announcement; other election id: send the larger of the two ids; announcement or heartbeat: forward it unchanged exactly when it is not the node's own |
| Election.Receive | nodes/node.py:287-315 | only the node's own election id changes state (leader := self, election flag cleared); announcements and heartbeats adopt the leader and refresh the heartbeat time; announcements clear the flag; nothing received sets it |
| Election.RepliesAllLength | nodes/node.py:210-225 | each record handled sends at most one record on, each election record exactly one |
| Topology.SortedIdsIncreasing | nodes/node.py:154 | the sorted ids strictly increase and list every id once |
| Topology.IndexOf | nodes/node.py:158 | `index` returns the first position holding the id |
| Topology.RightOf | nodes/node.py:159 | the right neighbour is a known id |
| Topology.LeftOf | nodes/node.py:160 | the left neighbour is a known id |
| Topology.RightOfIsRight | nodes/node.py:154-159 | the right neighbour is the least larger id, wrapping to the least id; a lone node is its own right neighbour |
| Topology.LeftOfIsLeft | nodes/node.py:154-160 | the left neighbour is the greatest smaller id, wrapping to the greatest id; a lone node is its own left neighbour |
| Topology.StaleIds | nodes/node.py:150 | the trim selects only known ids and never the node's own |
| Topology.Trim | nodes/node.py:150-152 | the trim deletes exactly the selected ids, leaves every other entry as it was and always keeps the node's own |
| Topology.TrimEvictsEveryPeer | nodes/node.py:150 | with a clock beyond any port number plus ten, the trim leaves only the node's own entry |
| Topology.PeerAt | nodes/node.py:161-168 | the neighbour record is absent exactly when the entry's ring port is unknown, and otherwise holds the id, host and ring port |
| Topology.Learn | nodes/node.py:143 | an accepted record adds or overwrites its sender's entry with its host, ports and the time and leaves every other entry alone; a rejected one changes nothing |
| Topology.LearnAgain | nodes/node.py:136-143 | delivering the same record again keeps the ids, hosts and ports and refreshes only the sender's timestamp |
| Topology.DiscoveryRecordsSender | nodes/node.py:121-143 | the datagram a bound node sends lands in a listener's table as exactly its id, host and ports, the rest unchanged |
| Lcr.DeclarerIsMax | nodes/node.py:287-300 | hop `DeclareHop` of the election started anywhere is received by the node with the largest id |
| Lcr.Declared | nodes/node.py:288-294 | on that hop the node receives an election record carrying its own id, so it declares itself leader |
| Lcr.ElectionCarriesMax | nodes/node.py:295-300 | until the declaration every hop carries an election record with the largest id seen so far |
| Lcr.OnlyOneDeclares | nodes/node.py:288-294 | exactly one hop delivers an election record with the receiver's own id: hop `DeclareHop` does, and no other hop does |
| Lcr.SortedRingRight | nodes/node.py:154-159 | the ring the maintainer builds is the ring of the election proofs: the right neighbour of position `p` of the sorted ids is position `Next(n, p)` |
| Lcr.SortedRingLeft | nodes/node.py:154-160 | the left neighbour of position `Next(n, p)` of the sorted ids is position `p` |
| Lcr.SortedRingDistinct | nodes/node.py:154 | the sorted ids are distinct, as the election proofs require |
| Lcr.AnnouncementReachesAll | nodes/node.py:302-308 | after the declaration the announcement of the largest id passes each node, and every node receives it |
| Lcr.ElectionQuiesces | nodes/node.py:307-308 | once the announcement is back at the leader nothing more is sent |
| Lcr.LcrElectsMaximum | nodes/node.py:287-308 | on a stable ring of distinct ids the election started by any node elects the largest id, every node learns it, and the run stops |
| Lcr.OneCircuit | nodes/node.py:302-315 | an announcement or heartbeat sent by its originator visits every node unchanged and stops after exactly one circuit |
| Relay.Without | nodes/node.py:263-269 | the sessions kept are exactly the listed ones not in the removed set |
| Relay.WithoutSubsequence | nodes/node.py:263-269 | pruning keeps the survivors in their original order |
| Relay.WithoutNoDup | nodes/node.py:263-269 | pruning a list without repeats leaves one without repeats |
| Relay.Among | nodes/node.py:257-262 | the dead list holds exactly the sessions of the snapshot whose write failed, each once |
| Relay.RemoveFirst | nodes/node.py:269 | `list.remove` shortens the list by one |
| Relay.RemoveFirstAt | nodes/node.py:269 | `list.remove` drops the first occurrence of the session and keeps everything before and after it, in order |
| Relay.RemoveFirstMultiset | nodes/node.py:269 | `list.remove` takes away exactly one copy of the session and keeps every other element |
| Relay.RemoveFirstWithout | nodes/node.py:268-269 | removing a dead session still listed once is the same as filtering it out |
| Relay.PruneStep | nodes/node.py:263-269 | pruning one more dead session, whether still listed or not, filters it out |
| Relay.WriteFailed | nodes/node.py:258-262 | a failed write lists the session as dead and writes nothing |
| Relay.WriteDone | nodes/node.py:258-262 | a good write adds exactly that write and lists nothing as dead |
| Relay.FanoutWrites | nodes/node.py:258-260 | a fan-out writes the text once to each target in the targets' order and to nobody else |
| Relay.ChatMessagesOfLines | nodes/node.py:251-253 | a message is relayed exactly when it is a non-empty line of the session, and as many times as that line occurs |
| Relay.AfterBroadcastsShrinks | nodes/node.py:248-269 | a session open after later broadcasts was open after earlier ones |
| Relay.SurvivorsReceiveAll | nodes/node.py:248-269 | every session still open after a relay run was written every message of the run, tagged with the leader's id |
| Nodes.Sent | nodes/node.py:275-285 | a send emits one envelope to the right neighbour, and nothing when there is no neighbour |
| Nodes.SendAllAddressed | nodes/node.py:275-285 | without a neighbour nothing is sent; with one every record is sent to it, in order |
| Nodes.Node.constructor | nodes/node.py:42-67 | the fresh node knows only itself, without ports, and has no neighbours, leader, election, sessions or sends |
| Nodes.Node.BindListeners | nodes/node.py:95-113 | the bound ports are recorded and the node's own entry is re-registered with them |
| Nodes.Node.HelloMessage | nodes/node.py:121 | once bound the datagram parses back to the node's id, address and ports; before the ring listener is bound it is rejected |
| Nodes.Node.OnHello | nodes/node.py:136-143 | the table becomes the learned one; fewer than five tokens or a first token other than `HELLO` leave it unchanged |
| Nodes.Node.SendRing | nodes/node.py:275-285 | the record is sent to the right neighbour if there is one, otherwise nothing is sent |
| Nodes.Node.StartElection | nodes/node.py:271-273 | the node sends an election record with its own id |
| Nodes.Node.TrimStale | nodes/node.py:150-152 | the deletion loop leaves exactly the trimmed table |
| Nodes.Node.UpdateNeighbours | nodes/node.py:170-183 | the neighbours become the computed ones; an election starts, setting the flag, recording the time and sending the node's id, exactly on a change of either neighbour while no leader is known, a right neighbour exists, no election runs and more than 2 s have passed; otherwise nothing else changes |
| Nodes.Node.MaintainRing | nodes/node.py:147-183 | the table is trimmed, the neighbours are the ring successor and predecessor of the node in it, and an election starts under exactly the conditions above |
| Nodes.Node.OnElectionMsg | nodes/node.py:287-300 | its own id back: become leader and clear the flag; any other id: leader and flag untouched; exactly one record sent, the announcement or the election record with the larger id |
| Nodes.Node.OnLeaderMsg | nodes/node.py:302-308 | adopt the leader, clear the flag, refresh the heartbeat time, and forward the announcement exactly when it is not the node's own |
| Nodes.Node.OnHeartbeat | nodes/node.py:310-315 | adopt the leader, refresh the heartbeat time, and forward the heartbeat exactly when it is not the node's own |
| Nodes.Node.OnRingMsg | nodes/node.py:216-225 | the dispatch changes the leadership fields by `Receive` and sends `Reply` |
| Nodes.Node.HandleRingConn | nodes/node.py:207-225 | the leadership fields and the sends after a connection are the fold of `Receive` and the replies over the records it delivers |
| Nodes.Node.HeartbeatTick | nodes/node.py:317-330 | the leader sends a heartbeat and changes nothing else; a follower whose leader id is truthy and silent for more than 6 s forgets it and starts an election; otherwise nothing changes |
| Nodes.Node.AcceptClient | nodes/node.py:234-246 | only the leader welcomes and keeps a new session; any other node answers `NOT_LEADER` and keeps none |
| Nodes.Node.WriteAll | nodes/node.py:257-262 | every session of the snapshot whose write succeeds is written the line, in order, and the failed ones are collected |
| Nodes.Node.Prune | nodes/node.py:263-269 | removing each dead session still listed leaves the snapshot with exactly the dead ones filtered out |
| Nodes.Node.Broadcast | nodes/node.py:256-269 | the sessions become the old ones minus exactly those whose write failed, in order, and every survivor was written the text and a newline |
| Nodes.Node.RelayMessage | nodes/node.py:253-254 | relaying one message extends the run's writes by its fan-out and its surviving sessions |
| Nodes.Node.HandleClient | nodes/node.py:248-254 | a session's input relays exactly its non-empty lines, each tagged `[id] `, and leaves the sessions that survive every broadcast |

## Left out

- Sockets are not modelled: multicast membership, TCP listen, accept and connect, and `get_local_ip` (nodes/node.py:29-38, 95-114, 186-205). An envelope in `outbox` is a send attempt to the right neighbour; whether the connection or the write succeeds is not modelled.
- Threads are not modelled: `threading.Timer`, `_stop` and the unsynchronised sharing of `known` and `clients`. Each handler is one atomic step.
- `time.time()` and `time.sleep` become integer parameters. Times are whole seconds, not floats. The maintainer reads the clock twice (`now`, `electionNow`).
- `random.randint` id selection is left out: the id is a constructor parameter.
- Nodes.Node.OnHello: a token `int()` rejects kills the listener thread in the source; here the record is only ignored.
- Nodes.Node.HandleRingConn: a malformed known command ends the handler, as its exception does. The exception itself is not modelled.
- Nodes.Node.HandleRingConn: one clock reading (`now`) stands for every record of a connection, where the source reads `time.time()` per record. Each send opens its own connection, so a connection normally carries one record.
- `int()` is modelled as an optional sign followed by ASCII digits. `int()` also accepts underscores between digits and non-ASCII digits.
- Byte decoding is not modelled; every operation starts from decoded text. `data.decode()` (nodes/node.py:136) raises on a datagram that is not UTF-8, which ends the listener thread. Reading through `conn.makefile('r')` (nodes/node.py:209, 250) can fail the same way in a connection handler. `recvfrom(1024)` (nodes/node.py:133) truncates a longer datagram.
- `split()` and `strip()` use Python's whitespace set. Line splitting cuts at `\n` and `\r`, and the empty pieces of `\r\n` are dropped by both readers.
- Nodes.Node.AcceptClient: requires the connection not already listed, since the source always accepts a fresh socket. It does not model a failing `NOT_LEADER` send, which raises and ends the accept loop. Closing the socket is not modelled.
- Nodes.Node.Broadcast: closing the dead sockets is not modelled.
- Nodes.Node.MaintainRing: requires both listeners bound and every peer entry to carry ports, as `start` binds the listeners before the maintainer runs. On an unbound table the trim's subtraction raises.
- Nodes.Node.HelloMessage: its round trip is stated for an address free of whitespace, which is what an IP address is.
- `print` logging, `argparse`, `main` and `WELCOME`-send failures (caught and ignored) are left out.
- nodes/chat_client.py, server.py and client.py are not part of this model: they are socket I/O and a separate chat server.
