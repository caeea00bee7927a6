/**
 * The two text formats the node speaks to its peers: the discovery record
 * multicast as `HELLO <id> <host> <ring_port> <client_port>`, and the ring
 * records `ELECTION <id>`, `LEADER <id>` and `HEARTBEAT <id>`, one per line.
 */
module Wire {
  import opened Wrappers
  import opened Text

  /** A parsed discovery record. */
  datatype Hello = Hello(id: int, host: string, ringPort: int, clientPort: int)

  /** The fixed words of both formats are single tokens. */
  lemma KeywordsAreTokens()
    ensures IsToken("HELLO") && IsToken("None")
    ensures IsToken("ELECTION") && IsToken("LEADER") && IsToken("HEARTBEAT")
  {
  }

  /** A port as the f-string renders it: the number, or `None` before the listener is bound. */
  function PortText(p: Option<int>): string
  {
    match p
    case None => "None"
    case Some(v) => IntToString(v)
  }

  /** The discovery datagram a node multicasts. */
  function HelloText(id: int, host: string, ringPort: Option<int>, clientPort: Option<int>): string
  {
    Unwords(["HELLO", IntToString(id), host, PortText(ringPort), PortText(clientPort)])
  }

  /**
   * The listener's reading of a datagram: at least five tokens, the first
   * `HELLO`, and integers in the id and port positions. Extra tokens are
   * ignored. A token that `int()` rejects makes the record unusable.
   */
  function ParseHello(data: string): (r: Option<Hello>)
    ensures |Split(data)| < 5 || Split(data)[0] != "HELLO" ==> r == None
    ensures |Split(data)| >= 5 && Split(data)[0] == "HELLO" ==>
      (r.Some? <==> ParseInt(Split(data)[1]).Some? && ParseInt(Split(data)[3]).Some? && ParseInt(Split(data)[4]).Some?)
    ensures r.Some? ==>
      && Some(r.value.id) == ParseInt(Split(data)[1]) && r.value.host == Split(data)[2]
      && Some(r.value.ringPort) == ParseInt(Split(data)[3]) && Some(r.value.clientPort) == ParseInt(Split(data)[4])
  {
    var s := Split(data);
    if |s| >= 5 && s[0] == "HELLO" then
      match (ParseInt(s[1]), ParseInt(s[3]), ParseInt(s[4]))
      case (Some(nid), Some(rp), Some(cp)) => Some(Hello(nid, s[2], rp, cp))
      case _ => None
    else None
  }

  /** Parsing the record a bound node sends recovers its id, host and both ports. */
  lemma {:induction false} HelloRoundTrip(id: int, host: string, ringPort: int, clientPort: int)
    requires IsToken(host)
    ensures ParseHello(HelloText(id, host, Some(ringPort), Some(clientPort)))
         == Some(Hello(id, host, ringPort, clientPort))
  {
    var ws := ["HELLO", IntToString(id), host, IntToString(ringPort), IntToString(clientPort)];
    KeywordsAreTokens();
    IntToStringIsToken(id);
    IntToStringIsToken(ringPort);
    IntToStringIsToken(clientPort);
    SplitUnwords(ws);
    ParseIntToString(id);
    ParseIntToString(ringPort);
    ParseIntToString(clientPort);
  }

  /** A record sent before the ring listener is bound carries `None` and is not accepted. */
  lemma {:induction false} UnboundHelloRejected(id: int, host: string, clientPort: Option<int>)
    requires IsToken(host)
    ensures ParseHello(HelloText(id, host, None, clientPort)) == None
  {
    var ws := ["HELLO", IntToString(id), host, "None", PortText(clientPort)];
    KeywordsAreTokens();
    IntToStringIsToken(id);
    if clientPort.Some? { IntToStringIsToken(clientPort.value); }
    SplitUnwords(ws);
    NoneIsNotInt();
  }

  lemma NoneIsNotInt()
    ensures ParseInt("None") == None
  {
    assert "None"[0] == 'N';
  }

  /** A ring record. */
  datatype RingMsg = Election(id: int) | Leader(id: int) | Heartbeat(id: int)

  function Command(m: RingMsg): string
  {
    match m
    case Election(_) => "ELECTION"
    case Leader(_) => "LEADER"
    case Heartbeat(_) => "HEARTBEAT"
  }

  /** The text a handler passes to the send path. */
  function RingText(m: RingMsg): string
  {
    Command(m) + " " + IntToString(m.id)
  }

  /** What the send path writes on the connection: the text and a newline. */
  function RingLine(m: RingMsg): string
  {
    RingText(m) + "\n"
  }

  /** How the ring reader treats one line. */
  datatype LineKind =
    | Skip            // blank line or unknown command: ignored, reading goes on
    | Malformed       // known command without a usable id: `parts[1]` or `int()` raises
    | Got(msg: RingMsg)

  predicate IsCommand(w: string)
  {
    w == "ELECTION" || w == "LEADER" || w == "HEARTBEAT"
  }

  function Classify(line: string): (k: LineKind)
    ensures k == Skip <==> Split(line) == [] || !IsCommand(Split(line)[0])
    ensures k.Got? ==> Command(k.msg) == Split(line)[0] && |Split(line)| >= 2
                       && ParseInt(Split(line)[1]) == Some(k.msg.id)
    // a known command with an integer second word is always parsed
    ensures Split(line) != [] && IsCommand(Split(line)[0]) && |Split(line)| >= 2 && ParseInt(Split(line)[1]).Some? ==> k.Got?
  {
    var parts := Split(line);
    if parts == [] then Skip
    else
      var cmd := parts[0];
      if !IsCommand(cmd) then Skip
      else if |parts| < 2 then Malformed
      else match ParseInt(parts[1])
        case None => Malformed
        case Some(n) =>
          Got(if cmd == "ELECTION" then Election(n) else if cmd == "LEADER" then Leader(n) else Heartbeat(n))
  }

  /** The messages a connection delivers: blank and unknown lines skipped, reading stops at a malformed one. */
  function RingMessages(lines: seq<string>): seq<RingMsg>
  {
    if lines == [] then []
    else match Classify(lines[0])
      case Skip => RingMessages(lines[1..])
      case Malformed => []
      case Got(m) => [m] + RingMessages(lines[1..])
  }

  /** What a connection delivers from line `i` on, read off the kind of that line. */
  lemma RingMessagesAt(lines: seq<string>, i: nat)
    requires i < |lines|
    ensures Classify(lines[i]) == Skip ==> RingMessages(lines[i..]) == RingMessages(lines[i + 1..])
    ensures Classify(lines[i]) == Malformed ==> RingMessages(lines[i..]) == []
    ensures Classify(lines[i]).Got? ==>
      RingMessages(lines[i..]) == [Classify(lines[i]).msg] + RingMessages(lines[i + 1..])
  {
    assert lines[i..][0] == lines[i] && lines[i..][1..] == lines[i + 1..];
  }

  /** The same, for a reader that has already collected `done` from the lines before `i`. */
  lemma RingMessagesStep(lines: seq<string>, i: nat, done: seq<RingMsg>)
    requires i < |lines|
    ensures Classify(lines[i]) == Skip ==>
      done + RingMessages(lines[i..]) == done + RingMessages(lines[i + 1..])
    ensures Classify(lines[i]) == Malformed ==> done + RingMessages(lines[i..]) == done
    ensures Classify(lines[i]).Got? ==>
      done + RingMessages(lines[i..]) == (done + [Classify(lines[i]).msg]) + RingMessages(lines[i + 1..])
  {
    RingMessagesAt(lines, i);
    var k := Classify(lines[i]);
    if k == Malformed {
      assert done + [] == done;
    } else if k.Got? {
      assert done + ([k.msg] + RingMessages(lines[i + 1..])) == (done + [k.msg]) + RingMessages(lines[i + 1..]);
    }
  }

  /** A known command without a usable id ends the connection: nothing after it is delivered. */
  lemma {:induction false} MalformedEndsConn(lines: seq<string>, i: nat)
    requires i < |lines| && Classify(lines[i]) == Malformed
    ensures RingMessages(lines) == RingMessages(lines[..i])
  {
    if i > 0 {
      MalformedEndsConn(lines[1..], i - 1);
      assert lines[..i][0] == lines[0];
      assert lines[..i][1..] == lines[1..][..i - 1];
    }
  }

  /** A skipped line (blank, or an unknown command) delivers nothing and changes nothing around it. */
  lemma {:induction false} SkipInvisible(lines: seq<string>, i: nat)
    requires i < |lines| && Classify(lines[i]) == Skip
    ensures RingMessages(lines) == RingMessages(lines[..i] + lines[i + 1..])
  {
    var r := lines[..i] + lines[i + 1..];
    if i > 0 {
      SkipInvisible(lines[1..], i - 1);
      assert r[0] == lines[0];
      assert r[1..] == lines[1..][..i - 1] + lines[1..][i..];
    } else {
      assert r == lines[1..];
    }
  }

  /** Every ring record reads back as itself. */
  lemma {:induction false} RingRoundTrip(m: RingMsg)
    ensures Classify(RingText(m)) == Got(m)
  {
    var c, d := Command(m), IntToString(m.id);
    KeywordsAreTokens();
    IntToStringIsToken(m.id);
    SplitUnwords([c, d]);
    assert Unwords([c, d]) == RingText(m);
    ParseIntToString(m.id);
    CommandDecodes(m);
  }

  /** The command word names the record's kind. */
  lemma CommandDecodes(m: RingMsg)
    ensures IsCommand(Command(m))
    ensures (if Command(m) == "ELECTION" then Election(m.id)
             else if Command(m) == "LEADER" then Leader(m.id) else Heartbeat(m.id)) == m
  {
    assert |"ELECTION"| == 8 && |"LEADER"| == 6 && |"HEARTBEAT"| == 9;
  }

  /** A blank line (one that `strip()` empties) is skipped. */
  lemma {:induction false} BlankLineSkipped(line: string)
    requires AllSpace(line)
    ensures Classify(line) == Skip
  {
    SplitEmptyIffBlank(line);
  }

  /** A ring record contains no line break, so it stays one line on the wire. */
  lemma RingTextOneLine(m: RingMsg)
    ensures forall i :: 0 <= i < |RingText(m)| ==> !IsLineBreak(RingText(m)[i])
  {
    IntToStringIsToken(m.id);
    var c, d := Command(m), IntToString(m.id);
    assert RingText(m) == c + " " + d;
    forall i | 0 <= i < |RingText(m)| ensures !IsLineBreak(RingText(m)[i]) {
      if i < |c| { assert RingText(m)[i] == c[i]; }
      else if i > |c| { assert RingText(m)[i] == d[i - |c| - 1]; assert !IsSpace(d[i - |c| - 1]); }
    }
  }

  /** The bytes several sends put on the wire, one line each. */
  function Stream(msgs: seq<RingMsg>): string
  {
    if msgs == [] then [] else RingLine(msgs[0]) + Stream(msgs[1..])
  }

  /** Reading back any sequence of sent lines yields exactly the sent messages, in order. */
  lemma {:induction false} StreamRoundTrip(msgs: seq<RingMsg>)
    ensures RingMessages(Lines(Stream(msgs))) == msgs
  {
    if msgs == [] {
      assert Lines([]) == [[]];
      assert Classify([]) == Skip;
      assert RingMessages([[]][1..]) == [];
    } else {
      var m, t, rest := msgs[0], RingText(msgs[0]), Stream(msgs[1..]);
      assert Stream(msgs) == t + "\n" + rest;
      RingTextOneLine(m);
      LinesCons(t, rest);
      var ls := [t] + Lines(rest);
      assert ls[0] == t && ls[1..] == Lines(rest);
      RingRoundTrip(m);
      StreamRoundTrip(msgs[1..]);
      assert RingMessages(ls) == [m] + msgs[1..];
      assert [m] + msgs[1..] == msgs;
    }
  }
}
