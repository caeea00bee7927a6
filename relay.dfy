/**
 * The leader's chat relay as values: the session list, the text written
 * to each session, and the pruning of sessions whose write failed.
 */
module Relay {
  import opened Text

  /** A chat connection. Sockets are compared by identity, so a number stands for one. */
  type Conn = nat

  /** Text written to one chat connection. */
  datatype Write = Write(to: Conn, text: string)

  predicate NoDup(s: seq<Conn>)
  {
    forall i, j :: 0 <= i < j < |s| ==> s[i] != s[j]
  }

  /** The line a chat message becomes: the id in square brackets, a space, then the message. */
  function ChatText(id: int, msg: string): string
  {
    ['['] + IntToString(id) + [']', ' '] + msg
  }

  /** The sessions listed in `s`. */
  function Elements(s: seq<Conn>): set<Conn>
  {
    set c | c in s
  }

  /** `r` keeps some of the elements of `s`, in their order. */
  ghost predicate Subsequence(r: seq<Conn>, s: seq<Conn>)
    decreases |s|
  {
    if r == [] then true
    else if s == [] then false
    else (r[0] == s[0] && Subsequence(r[1..], s[1..])) || Subsequence(r, s[1..])
  }

  /** The sessions of `s` not in `gone`, in order. */
  function Without(s: seq<Conn>, gone: set<Conn>): (r: seq<Conn>)
    ensures forall c :: c in r <==> c in s && c !in gone
  {
    if s == [] then []
    else if s[0] in gone then Without(s[1..], gone)
    else [s[0]] + Without(s[1..], gone)
  }

  /** Filtering keeps the order of the sessions it keeps. */
  lemma {:induction false} WithoutSubsequence(s: seq<Conn>, gone: set<Conn>)
    ensures Subsequence(Without(s, gone), s)
  {
    if s != [] {
      WithoutSubsequence(s[1..], gone);
      var rest := Without(s[1..], gone);
      if s[0] !in gone {
        assert ([s[0]] + rest)[1..] == rest;
      }
    }
  }

  /** Filtering a list without repeats leaves a list without repeats. */
  lemma {:induction false} WithoutNoDup(s: seq<Conn>, gone: set<Conn>)
    requires NoDup(s)
    ensures NoDup(Without(s, gone))
  {
    if s != [] {
      assert NoDup(s[1..]) && s[0] !in s[1..];
      WithoutNoDup(s[1..], gone);
    }
  }

  /** The sessions of `s` that are in `gone`, in order: the `dead` list. */
  function Among(s: seq<Conn>, gone: set<Conn>): (r: seq<Conn>)
    ensures forall c :: c in r <==> c in s && c in gone
    ensures NoDup(s) ==> NoDup(r)
  {
    if s == [] then []
    else
      var rest := Among(s[1..], gone);
      assert NoDup(s) ==> NoDup(s[1..]) && s[0] !in s[1..];
      if s[0] in gone then [s[0]] + rest else rest
  }

  /** Python's `list.remove(x)`: drops the first occurrence. */
  function RemoveFirst(s: seq<Conn>, x: Conn): (r: seq<Conn>)
    requires x in s
    ensures |r| == |s| - 1
  {
    if s[0] == x then s[1..] else [s[0]] + RemoveFirst(s[1..], x)
  }

  /** The occurrence `list.remove` drops is the first one, and everything around it is kept in order. */
  lemma {:induction false} RemoveFirstAt(s: seq<Conn>, x: Conn) returns (i: nat)
    requires x in s
    ensures i < |s| && s[i] == x && x !in s[..i]
    ensures RemoveFirst(s, x) == s[..i] + s[i + 1..]
  {
    if s[0] == x {
      i := 0;
    } else {
      var t := s[1..];
      var j := RemoveFirstAt(t, x);
      i := j + 1;
      assert s[..i] == [s[0]] + t[..j];
      assert s[i + 1..] == t[j + 1..];
    }
  }

  /** `list.remove` takes away exactly one copy of the session and keeps every other element. */
  lemma RemoveFirstMultiset(s: seq<Conn>, x: Conn)
    requires x in s
    ensures multiset(RemoveFirst(s, x)) == multiset(s) - multiset{x}
  {
    var i := RemoveFirstAt(s, x);
    var a, b := s[..i], s[i + 1..];
    assert s == a + [x] + b;
    assert multiset(s) == multiset(a) + multiset{x} + multiset(b);
  }

  /** One write of `text` to each target, in order. */
  function Fanout(targets: seq<Conn>, text: string): seq<Write>
  {
    if targets == [] then [] else Fanout(targets[..|targets| - 1], text) + [Write(targets[|targets| - 1], text)]
  }

  /** A fan-out writes the text once to each target, in the targets' order, and to nobody else. */
  lemma {:induction false} FanoutWrites(targets: seq<Conn>, text: string)
    ensures |Fanout(targets, text)| == |targets|
    ensures forall i :: 0 <= i < |targets| ==> Fanout(targets, text)[i] == Write(targets[i], text)
  {
    if targets != [] {
      FanoutWrites(targets[..|targets| - 1], text);
    }
  }

  lemma FanoutSnoc(targets: seq<Conn>, c: Conn, text: string)
    ensures Fanout(targets + [c], text) == Fanout(targets, text) + [Write(c, text)]
  {
    assert (targets + [c])[..|targets|] == targets;
  }

  lemma {:induction false} WithoutAppend(s: seq<Conn>, x: Conn, gone: set<Conn>)
    ensures Without(s + [x], gone) == Without(s, gone) + (if x in gone then [] else [x])
  {
    if s != [] {
      assert (s + [x])[1..] == s[1..] + [x];
      WithoutAppend(s[1..], x, gone);
    } else {
      assert [x][1..] == [];
    }
  }

  lemma {:induction false} AmongAppend(s: seq<Conn>, x: Conn, gone: set<Conn>)
    ensures Among(s + [x], gone) == Among(s, gone) + (if x in gone then [x] else [])
  {
    if s != [] {
      assert (s + [x])[1..] == s[1..] + [x];
      AmongAppend(s[1..], x, gone);
    } else {
      assert [x][1..] == [];
    }
  }

  /** A failed write to one more session of a snapshot lists it as dead and writes nothing. */
  lemma WriteFailed(s: seq<Conn>, c: Conn, gone: set<Conn>)
    requires c in gone
    ensures Without(s + [c], gone) == Without(s, gone)
    ensures Among(s + [c], gone) == Among(s, gone) + [c]
  {
    WithoutAppend(s, c, gone);
    AmongAppend(s, c, gone);
    assert Without(s, gone) + [] == Without(s, gone);
  }

  /** A good write to one more session of a snapshot adds that write and lists nothing as dead. */
  lemma WriteDone(s: seq<Conn>, c: Conn, gone: set<Conn>, line: string, w0: seq<Write>)
    requires c !in gone
    ensures Among(s + [c], gone) == Among(s, gone)
    ensures w0 + Fanout(Without(s + [c], gone), line) == (w0 + Fanout(Without(s, gone), line)) + [Write(c, line)]
  {
    AmongAppend(s, c, gone);
    assert Among(s, gone) + [] == Among(s, gone);
    WithoutAppend(s, c, gone);
    FanoutExtended(w0, Without(s, gone), c, line);
  }

  lemma FanoutExtended(w0: seq<Write>, kept: seq<Conn>, c: Conn, line: string)
    ensures w0 + Fanout(kept + [c], line) == (w0 + Fanout(kept, line)) + [Write(c, line)]
  {
    FanoutSnoc(kept, c, line);
    assert w0 + (Fanout(kept, line) + [Write(c, line)]) == (w0 + Fanout(kept, line)) + [Write(c, line)];
  }

  /**
   * Pruning dead session `j`, the ones before it already filtered out:
   * removing it where it is still listed, or leaving the list alone where
   * it is not, filters it out as well.
   */
  lemma PruneStep(s: seq<Conn>, dead: seq<Conn>, j: nat, gone: set<Conn>)
    requires NoDup(s) && NoDup(dead) && j < |dead| && gone == Elements(dead[..j])
    ensures Elements(dead[..j + 1]) == gone + {dead[j]}
    ensures dead[j] in Without(s, gone) ==> RemoveFirst(Without(s, gone), dead[j]) == Without(s, gone + {dead[j]})
    ensures dead[j] !in Without(s, gone) ==> Without(s, gone) == Without(s, gone + {dead[j]})
  {
    var d := dead[j];
    assert d !in dead[..j];
    assert dead[..j + 1] == dead[..j] + [d];
    if d in Without(s, gone) {
      RemoveFirstWithout(s, gone, d);
    } else {
      WithoutSame(s, gone, gone + {d});
    }
  }

  /** Removing a session that is still listed once is the same as filtering it out. */
  lemma {:induction false} RemoveFirstWithout(s: seq<Conn>, gone: set<Conn>, d: Conn)
    requires NoDup(s) && d in s && d !in gone
    ensures d in Without(s, gone)
    ensures RemoveFirst(Without(s, gone), d) == Without(s, gone + {d})
  {
    assert NoDup(s[1..]) && s[0] !in s[1..];
    if s[0] == d {
      assert d !in s[1..];
      WithoutSame(s[1..], gone, gone + {d});
    } else {
      RemoveFirstWithout(s[1..], gone, d);
    }
  }

  lemma {:induction false} WithoutNone(s: seq<Conn>)
    ensures Without(s, {}) == s
  {
    if s != [] { WithoutNone(s[1..]); }
  }

  /** Filtering depends only on which listed sessions are removed. */
  lemma {:induction false} WithoutSame(s: seq<Conn>, g1: set<Conn>, g2: set<Conn>)
    requires forall c :: c in s ==> (c in g1 <==> c in g2)
    ensures Without(s, g1) == Without(s, g2)
  {
    if s != [] {
      WithoutSame(s[1..], g1, g2);
    }
  }

  /** The non-empty lines of a session: `line.rstrip('\n')` then `if msg:`. */
  function ChatMessages(lines: seq<string>): seq<string>
  {
    if lines == [] then []
    else
      var last := lines[|lines| - 1];
      ChatMessages(lines[..|lines| - 1]) + (if last != [] then [last] else [])
  }

  /** Every relayed message is a non-empty line of the session, and every non-empty line is relayed as often as it occurs. */
  lemma {:induction false} ChatMessagesOfLines(lines: seq<string>)
    ensures forall m :: m in ChatMessages(lines) <==> m in lines && m != []
    ensures multiset(ChatMessages(lines)) == multiset(lines)[[] := 0]
  {
    if lines != [] {
      var init, last := lines[..|lines| - 1], lines[|lines| - 1];
      ChatMessagesOfLines(init);
      assert lines == init + [last];
      assert multiset(lines) == multiset(init) + multiset{last};
    }
  }

  /** Reading line `i` relays it when it is not empty, and relays nothing otherwise. */
  lemma ChatMessagesSnoc(lines: seq<string>, i: nat)
    requires i < |lines|
    ensures lines[i] != [] ==> ChatMessages(lines[..i + 1]) == ChatMessages(lines[..i]) + [lines[i]]
    ensures lines[i] == [] ==> ChatMessages(lines[..i + 1]) == ChatMessages(lines[..i])
  {
    assert lines[..i + 1][..i] == lines[..i];
    assert ChatMessages(lines[..i]) + [] == ChatMessages(lines[..i]);
  }

  /**
   * The sessions whose write fails during broadcast `j` of a relay run,
   * the failures the run meets being listed in order; a broadcast past the
   * end of the list fails nowhere.
   */
  function FailedAt(failing: seq<set<Conn>>, j: nat): set<Conn>
  {
    if j < |failing| then failing[j] else {}
  }

  /** The sessions left after `n` broadcasts, broadcast `j` failing on the sessions in `FailedAt(failing, j)`. */
  function AfterBroadcasts(clients: seq<Conn>, n: nat, failing: seq<set<Conn>>): seq<Conn>
  {
    if n == 0 then clients else Without(AfterBroadcasts(clients, n - 1, failing), FailedAt(failing, n - 1))
  }

  /** Everything written to sessions while relaying `msgs` from leader `id`. */
  function BroadcastWrites(id: int, clients: seq<Conn>, msgs: seq<string>, failing: seq<set<Conn>>): seq<Write>
  {
    if msgs == [] then []
    else
      var n := |msgs| - 1;
      BroadcastWrites(id, clients, msgs[..n], failing)
        + Fanout(AfterBroadcasts(clients, n + 1, failing), ChatText(id, msgs[n]) + ['\n'])
  }

  /** Relaying one more message, on top of the writes `w0` made before the run, adds its fan-out to the sessions left after it. */
  lemma BroadcastWritesSnoc(id: int, clients: seq<Conn>, msgs: seq<string>, m: string, failing: seq<set<Conn>>, w0: seq<Write>)
    ensures AfterBroadcasts(clients, |msgs| + 1, failing) == Without(AfterBroadcasts(clients, |msgs|, failing), FailedAt(failing, |msgs|))
    ensures w0 + BroadcastWrites(id, clients, msgs + [m], failing)
         == (w0 + BroadcastWrites(id, clients, msgs, failing))
            + Fanout(AfterBroadcasts(clients, |msgs| + 1, failing), ChatText(id, m) + ['\n'])
  {
    assert (msgs + [m])[..|msgs|] == msgs;
    var before := BroadcastWrites(id, clients, msgs, failing);
    var fan := Fanout(AfterBroadcasts(clients, |msgs| + 1, failing), ChatText(id, m) + ['\n']);
    assert w0 + (before + fan) == (w0 + before) + fan;
  }

  lemma {:induction false} AfterBroadcastsShrinks(clients: seq<Conn>, j: nat, n: nat, failing: seq<set<Conn>>, c: Conn)
    requires j <= n && c in AfterBroadcasts(clients, n, failing)
    ensures c in AfterBroadcasts(clients, j, failing)
  {
    if j < n { AfterBroadcastsShrinks(clients, j, n - 1, failing, c); }
  }

  /**
   * Every session still open after a relay run was written every message
   * of the run, tagged with the leader's id, the sender's own session
   * included.
   */
  lemma {:induction false} SurvivorsReceiveAll(id: int, clients: seq<Conn>, msgs: seq<string>,
                                              failing: seq<set<Conn>>, c: Conn, j: nat)
    requires c in AfterBroadcasts(clients, |msgs|, failing) && j < |msgs|
    ensures Write(c, ChatText(id, msgs[j]) + ['\n']) in BroadcastWrites(id, clients, msgs, failing)
  {
    var n := |msgs| - 1;
    var w := Write(c, ChatText(id, msgs[j]) + ['\n']);
    var earlier := BroadcastWrites(id, clients, msgs[..n], failing);
    var after := AfterBroadcasts(clients, n + 1, failing);
    var last := Fanout(after, ChatText(id, msgs[n]) + ['\n']);
    assert BroadcastWrites(id, clients, msgs, failing) == earlier + last;
    if j == n {
      var k :| 0 <= k < |after| && after[k] == c;
      FanoutWrites(after, ChatText(id, msgs[n]) + ['\n']);
      assert last[k] == w;
      assert w in last;
    } else {
      AfterBroadcastsShrinks(clients, n, n + 1, failing, c);
      assert |msgs[..n]| == n && msgs[..n][j] == msgs[j];
      SurvivorsReceiveAll(id, clients, msgs[..n], failing, c, j);
      assert w in earlier;
    }
  }
}
