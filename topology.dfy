/**
 * Membership and ring topology: the `known` table, the trim of stale
 * entries, and the neighbours read off the sorted ids.
 */
module Topology {
  import opened Wrappers
  import opened Text
  import opened Wire

  /** A `known` entry: `(host, ring_port, client_port, last_seen)`. */
  datatype Entry = Entry(host: string, ringPort: Option<int>, clientPort: Option<int>, lastSeen: int)

  /** A neighbour as the node stores it: `(id, host, ring_port)`. */
  datatype Peer = Peer(id: int, host: string, port: int)

  /** The trim threshold, in seconds. */
  const StaleAfter: int := 10

  /** The largest TCP port number. */
  const MaxPort: int := 65535

  predicate Increasing(s: seq<int>)
  {
    forall i, j :: 0 <= i < j < |s| ==> s[i] < s[j]
  }

  /** A non-empty set has an element. */
  lemma HasElement(s: set<int>)
    requires s != {}
    ensures exists x :: x in s
  {
    if forall x :: x !in s {
      assert false;
    }
  }

  /** `m` is the least element of `s`. */
  predicate IsMin(s: set<int>, m: int)
  {
    m in s && forall y :: y in s ==> m <= y
  }

  /** Adding `x` to a set whose least element is `m` gives the smaller of the two as least element. */
  lemma MinOfInsert(s: set<int>, x: int, m: int)
    requires x in s && IsMin(s - {x}, m)
    ensures IsMin(s, if x < m then x else m)
  {
    forall y | y in s && y != x ensures m <= y {
      assert y in s - {x};
    }
  }

  lemma MinExists(s: set<int>)
    requires s != {}
    ensures exists m :: IsMin(s, m)
    decreases |s|
  {
    HasElement(s);
    var x :| x in s;
    var rest := s - {x};
    if rest != {} {
      MinExists(rest);
      var m :| IsMin(rest, m);
      MinOfInsert(s, x, m);
    } else {
      forall y | y in s ensures x <= y {
        assert y !in rest;
      }
      assert IsMin(s, x);
    }
  }

  function MinOf(s: set<int>): (m: int)
    requires s != {}
    ensures m in s && forall y :: y in s ==> m <= y
  {
    MinExists(s);
    var m :| IsMin(s, m); m
  }

  /** Python's `sorted(keys)` on a set of distinct ids. */
  function SortedIds(s: set<int>): (r: seq<int>)
    ensures forall x :: x in r <==> x in s
    decreases |s|
  {
    if s == {} then [] else [MinOf(s)] + SortedIds(s - {MinOf(s)})
  }

  /** The sorted ids increase strictly and list each id once. */
  lemma {:induction false} SortedIdsIncreasing(s: set<int>)
    ensures Increasing(SortedIds(s)) && |SortedIds(s)| == |s|
    decreases |s|
  {
    if s != {} {
      var m := MinOf(s);
      var rest := SortedIds(s - {m});
      SortedIdsIncreasing(s - {m});
      forall j | 0 <= j < |rest| ensures m < rest[j] {
        assert rest[j] in s - {m};
      }
      ConsIncreasing(m, rest);
      assert SortedIds(s) == [m] + rest;
    }
  }

  lemma ConsIncreasing(m: int, rest: seq<int>)
    requires Increasing(rest) && forall j :: 0 <= j < |rest| ==> m < rest[j]
    ensures Increasing([m] + rest)
  {
    var r := [m] + rest;
    forall i, j | 0 <= i < j < |r| ensures r[i] < r[j] {
      assert r[j] == rest[j - 1];
      if i > 0 { assert r[i] == rest[i - 1]; }
    }
  }

  /** Python's `ids.index(x)`: the first position holding `x`. */
  function IndexOf(ids: seq<int>, x: int): (i: nat)
    requires x in ids
    ensures i < |ids| && ids[i] == x
    ensures forall j :: 0 <= j < i ==> ids[j] != x
  {
    if ids[0] == x then 0 else 1 + IndexOf(ids[1..], x)
  }

  /** `r` follows `x` on the ring over `keys`: the least larger id, or the least id when `x` is largest. */
  ghost predicate IsRight(keys: set<int>, x: int, r: int)
  {
    && r in keys
    && ((exists y :: y in keys && x < y) ==> x < r && forall y :: y in keys && x < y ==> r <= y)
    && ((forall y :: y in keys ==> y <= x) ==> forall y :: y in keys ==> r <= y)
  }

  /** `l` precedes `x` on the ring over `keys`: the greatest smaller id, or the greatest id when `x` is least. */
  ghost predicate IsLeft(keys: set<int>, x: int, l: int)
  {
    && l in keys
    && ((exists y :: y in keys && y < x) ==> l < x && forall y :: y in keys && y < x ==> y <= l)
    && ((forall y :: y in keys ==> x <= y) ==> forall y :: y in keys ==> y <= l)
  }

  /** In an increasing sequence, order of values is order of positions. */
  lemma IncreasingOrder(ids: seq<int>, i: int, j: int)
    requires Increasing(ids) && 0 <= i < |ids| && 0 <= j < |ids|
    ensures ids[i] < ids[j] <==> i < j
  {
    if i < j { assert ids[i] < ids[j]; }
    else if j < i { assert ids[j] < ids[i]; }
  }

  /** `(i + 1) % n` on a position: the next position, wrapping to `0`. */
  lemma WrapUp(n: nat, i: nat)
    requires i < n
    ensures (i + 1) % n == if i + 1 == n then 0 else i + 1
  {
    if i + 1 == n { assert (i + 1) % n == 0; } else { assert (i + 1) % n == i + 1; }
  }

  /** `(i - 1) % n` on a position, Python's and Dafny's alike: the previous position, wrapping to `n - 1`. */
  lemma WrapDown(n: nat, i: nat)
    requires i < n
    ensures (i - 1) % n == if i == 0 then n - 1 else i - 1
  {
    if i == 0 { assert (0 - 1) % n == n - 1; } else { assert (i - 1) % n == i - 1; }
  }

  lemma {:induction false} SortedRight(keys: set<int>, ids: seq<int>, i: nat, r: int)
    requires Increasing(ids) && forall y :: y in ids <==> y in keys
    requires i < |ids| && r == ids[(i + 1) % |ids|]
    ensures IsRight(keys, ids[i], r)
  {
    var x := ids[i];
    WrapUp(|ids|, i);
    if i + 1 < |ids| {
      assert r == ids[i + 1];
      forall y | y in keys && x < y ensures r <= y {
        var j :| 0 <= j < |ids| && ids[j] == y;
        IncreasingOrder(ids, i, j);
        if j != i + 1 { IncreasingOrder(ids, i + 1, j); }
      }
    } else {
      forall y | y in keys ensures y <= x && r <= y {
        var j :| 0 <= j < |ids| && ids[j] == y;
        if j != i { IncreasingOrder(ids, j, i); }
        if j != 0 { IncreasingOrder(ids, 0, j); }
      }
    }
  }

  lemma {:induction false} SortedLeft(keys: set<int>, ids: seq<int>, i: nat, l: int)
    requires Increasing(ids) && forall y :: y in ids <==> y in keys
    requires i < |ids| && l == ids[(i - 1) % |ids|]
    ensures IsLeft(keys, ids[i], l)
  {
    var x := ids[i];
    WrapDown(|ids|, i);
    if i > 0 {
      assert l == ids[i - 1];
      forall y | y in keys && y < x ensures y <= l {
        var j :| 0 <= j < |ids| && ids[j] == y;
        IncreasingOrder(ids, j, i);
        if j != i - 1 { IncreasingOrder(ids, j, i - 1); }
      }
    } else {
      forall y | y in keys ensures x <= y && y <= l {
        var j :| 0 <= j < |ids| && ids[j] == y;
        if j != i { IncreasingOrder(ids, i, j); }
        if j != |ids| - 1 { IncreasingOrder(ids, j, |ids| - 1); }
      }
    }
  }

  /** In a strictly increasing list every id sits at exactly one position, which `index` finds. */
  lemma IndexOfIncreasing(ids: seq<int>, p: nat)
    requires Increasing(ids) && p < |ids|
    ensures IndexOf(ids, ids[p]) == p
  {
  }

  /** `ids[(i + 1) % len(ids)]` with `i = ids.index(x)` over the sorted ids. */
  function RightOf(keys: set<int>, x: int): (r: int)
    requires x in keys
    ensures r in keys
  {
    var ids := SortedIds(keys);
    ids[(IndexOf(ids, x) + 1) % |ids|]
  }

  /**
   * `ids[(i - 1) % len(ids)]`. Python's `%` floors, so `(0 - 1) % n` is
   * `n - 1`; Dafny's Euclidean `%` agrees because `n` is positive.
   */
  function LeftOf(keys: set<int>, x: int): (l: int)
    requires x in keys
    ensures l in keys
  {
    var ids := SortedIds(keys);
    ids[(IndexOf(ids, x) - 1) % |ids|]
  }

  /** The right neighbour is the least larger id, wrapping to the least id; alone, a node is its own. */
  lemma RightOfIsRight(keys: set<int>, x: int)
    requires x in keys
    ensures IsRight(keys, x, RightOf(keys, x))
    ensures keys == {x} ==> RightOf(keys, x) == x
  {
    var ids := SortedIds(keys);
    var i := IndexOf(ids, x);
    var r := ids[(i + 1) % |ids|];
    assert r == RightOf(keys, x);
    SortedIdsIncreasing(keys);
    SortedRight(keys, ids, i, r);
    if keys == {x} { assert r in keys; }
  }

  /** The left neighbour is the greatest smaller id, wrapping to the greatest id; alone, a node is its own. */
  lemma LeftOfIsLeft(keys: set<int>, x: int)
    requires x in keys
    ensures IsLeft(keys, x, LeftOf(keys, x))
    ensures keys == {x} ==> LeftOf(keys, x) == x
  {
    var ids := SortedIds(keys);
    var i := IndexOf(ids, x);
    var l := ids[(i - 1) % |ids|];
    assert l == LeftOf(keys, x);
    SortedIdsIncreasing(keys);
    SortedLeft(keys, ids, i, l);
    if keys == {x} { assert l in keys; }
  }

  /**
   * The trim test `now - v[2] > 10 and nid != self.id`. In the tuple
   * `(host, ring_port, client_port, last_seen)` the third field `v[2]` is
   * the client port, not the timestamp, so the test compares the clock with
   * a port number. (A missing port would make Python's subtraction raise:
   * callers only trim a table whose every entry has its ports.)
   */
  predicate Stale(self: int, nid: int, e: Entry, now: int)
  {
    match e.clientPort
    case Some(p) => now - p > StaleAfter && nid != self
    case None => false
  }

  /** The ids the trim removes. */
  function StaleIds(known: map<int, Entry>, self: int, now: int): (r: set<int>)
    ensures r <= known.Keys
    ensures self !in r
  {
    set nid | nid in known && Stale(self, nid, known[nid], now)
  }

  /** The table after the trim: every non-stale entry is kept as it was, the node's own always. */
  function Trim(known: map<int, Entry>, self: int, now: int): (t: map<int, Entry>)
    ensures t.Keys == known.Keys - StaleIds(known, self, now)
    ensures forall k :: k in t ==> t[k] == known[k]
    ensures self in known ==> self in t
  {
    known - StaleIds(known, self, now)
  }

  /** Whether a node's table can be trimmed without Python raising: every entry has both ports. */
  predicate PortsKnown(e: Entry)
  {
    e.ringPort.Some? && e.clientPort.Some?
  }

  /** With the real clock, far beyond any port number, the trim evicts every peer and keeps only the node itself. */
  lemma {:induction false} TrimEvictsEveryPeer(known: map<int, Entry>, self: int, now: int)
    requires forall k :: k in known ==> PortsKnown(known[k]) && known[k].clientPort.value <= MaxPort
    requires now > MaxPort + StaleAfter
    ensures Trim(known, self, now).Keys == known.Keys * {self}
  {
    forall k | k in known && k != self ensures k in StaleIds(known, self, now) {
      assert Stale(self, k, known[k], now);
    }
  }

  /** The neighbour record for id `x`: `None` exactly when its ring port is unknown. */
  function PeerAt(known: map<int, Entry>, x: int): (p: Option<Peer>)
    requires x in known
    ensures p.None? <==> known[x].ringPort.None?
    ensures p.Some? ==> p.value == Peer(x, known[x].host, known[x].ringPort.value)
  {
    match known[x].ringPort
    case None => None
    case Some(port) => Some(Peer(x, known[x].host, port))
  }

  /** The `known` entry a parsed discovery record produces at time `now`. */
  function Record(h: Hello, now: int): Entry
  {
    Entry(h.host, Some(h.ringPort), Some(h.clientPort), now)
  }

  /** The listener's update of `known` for one datagram's parse result: a record overwrites its id's entry. */
  function Learn(known: map<int, Entry>, h: Option<Hello>, now: int): (r: map<int, Entry>)
    ensures h.None? ==> r == known
    ensures h.Some? ==> r.Keys == known.Keys + {h.value.id} && r[h.value.id] == Record(h.value, now)
    ensures h.Some? ==> forall k :: k in known && k != h.value.id ==> r[k] == known[k]
  {
    match h
    case None => known
    case Some(rec) => known[rec.id := Record(rec, now)]
  }

  /**
   * Delivering the same record again changes neither the set of ids nor any
   * host or port: only the timestamp of the sender's entry is refreshed.
   */
  lemma LearnAgain(known: map<int, Entry>, h: Option<Hello>, t1: int, t2: int)
    ensures var once, twice := Learn(known, h, t1), Learn(Learn(known, h, t1), h, t2);
      && twice.Keys == once.Keys
      && (forall k :: k in once ==>
            twice[k].host == once[k].host && twice[k].ringPort == once[k].ringPort
            && twice[k].clientPort == once[k].clientPort)
      && (forall k :: k in once && (h.None? || k != h.value.id) ==> twice[k] == once[k])
      && (h.Some? ==> twice[h.value.id].lastSeen == t2)
  {
  }

  /** The datagram a bound node multicasts lands in a listener's table as exactly its id, host and ports. */
  lemma {:induction false} DiscoveryRecordsSender(known: map<int, Entry>, id: int, host: string,
                                                 ringPort: int, clientPort: int, now: int)
    requires IsToken(host)
    ensures var r := Learn(known, ParseHello(HelloText(id, host, Some(ringPort), Some(clientPort))), now);
      && r.Keys == known.Keys + {id}
      && r[id] == Entry(host, Some(ringPort), Some(clientPort), now)
      && (forall k :: k in known && k != id ==> r[k] == known[k])
  {
    HelloRoundTrip(id, host, ringPort, clientPort);
  }
}
