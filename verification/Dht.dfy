/**
 The KRPC client (BEP 5, "KRPC Protocol") as a step function over its events. Decoded messages are
 arbitrary; the transaction id of the n-th query is an arbitrary `draw(n)`.

 `sent` and `settled` are history: every query registered so far, and how each one ended.
 */
module Dht {
  import opened Text
  import opened Compact

  datatype Kind = FindNode | GetPeers(infoHash: string)

  datatype Node = Node(address: string, seen: int)

  /** An entry of `pendingRequests`; `serial` identifies the query in the history. */
  datatype Request = Request(to: Peer, kind: Kind, serial: nat)

  /** A registered query; `overSocket` tells whether `sendMessage` had a socket to hand it to. */
  datatype Query = Query(to: Peer, kind: Kind, overSocket: bool)

  datatype Outcome = Answered | TimedOut | Cleared | Overwritten

  datatype State = State(
    enabled: bool,
    socket: bool,
    nodes: seq<Node>,
    pending: map<string, Request>,
    targets: set<string>,
    peers: map<string, seq<string>>,
    sent: seq<Query>,
    settled: map<nat, Outcome>)

  const Initial := State(false, false, [], map[], {}, map[], [], map[])

  const BOOTSTRAP: seq<Peer> := [
    Peer("router.bittorrent.com", Some(6881)),
    Peer("dht.transmissionbt.com", Some(6881)),
    Peer("router.utorrent.com", Some(6881)),
    Peer("dht.libtorrent.org", Some(25401)),
    Peer("dht.aelitis.com", Some(6881))
  ]

  /** The argument of `announceInfoHash`. */
  datatype InfoHash = HashText(text: string) | HashBytes(bytes: seq<Byte>)

  /** The `r` part of a response; a missing or ill-typed member is None. */
  datatype Reply = Reply(values: Option<seq<Element>>, nodes: Option<seq<Byte>>)

  /** A decoded message. A transaction id of None is one whose reading throws. */
  datatype Message =
    | Undecoded
    | Response(transaction: Option<string>, reply: Option<Reply>)
    | NotResponse

  datatype Event =
    | Connect(created: bool)
    | Bound(addressKnown: bool)
    | SocketError
    | SocketClosed
    | Announce(infoHash: InfoHash)
    | Receive(message: Message, from: Peer, now: int, callbackThrows: bool)
    | Timeout(transaction: string)
    | Refresh(picks: nat -> nat)
    | CleanupNodes(now: int)
    | Stop

  // ---------- sending ----------

  /** `sendFindNodeQuery` and `sendGetPeersQuery`. */
  function Send(s: State, draw: nat -> string, to: Peer, kind: Kind): State {
    if !s.enabled then s
    else
      var q := |s.sent|;
      var id := draw(q);
      s.(sent := s.sent + [Query(to, kind, s.socket)],
      pending := s.pending[id := Request(to, kind, q)],
      settled := if id in s.pending then s.settled[s.pending[id].serial := Overwritten] else s.settled)
  }

  function SendAll(s: State, draw: nat -> string, to: seq<Peer>, kind: Kind): State {
    if to == [] then s
    else Send(SendAll(s, draw, to[..|to| - 1], kind), draw, to[|to| - 1], kind)
  }

  // ---------- the events ----------

  function Known(nodes: seq<Node>): (a: seq<string>)
    ensures |a| == |nodes| && forall i :: 0 <= i < |nodes| ==> a[i] == nodes[i].address
  {
    if nodes == [] then [] else Known(nodes[..|nodes| - 1]) + [nodes[|nodes| - 1].address]
  }

  function OnConnect(s: State, created: bool): State { if s.enabled || !created then s else s.(socket := true) }

  function OnBound(s: State, draw: nat -> string, addressKnown: bool): State {
    if !s.socket || !addressKnown then s else SendAll(s.(enabled := true), draw, BOOTSTRAP, FindNode)
  }

  /** `targetHash`: None when the argument is falsy. */
  function HashOf(h: InfoHash): Option<seq<Byte>> {
    match h
    case HashText(text) => if text == "" then None else Some(FromHex(text))
    case HashBytes(bytes) => Some(bytes)
  }

  function OnAnnounce(s: State, draw: nat -> string, infoHash: InfoHash): State {
    var hash := HashOf(infoHash);
    if !s.enabled || hash.None? then s
    else
      var h := Hex(hash.value);
      SendAll(s.(targets := s.targets + {h}), draw, ParseAddresses(Known(s.nodes)), GetPeers(h))
  }

  /** `discoveredNodes.set`: an address keeps its place and gets a new time. */
  function Discover(nodes: seq<Node>, address: string, now: int): seq<Node> {
    if nodes == [] then [Node(address, now)]
    else if nodes[0].address == address then [Node(address, now)] + nodes[1..]
    else [nodes[0]] + Discover(nodes[1..], address, now)
  }

  function OnReceive(s: State, draw: nat -> string, m: Message, from: Peer, now: int, callbackThrows: bool): State {
    if m.Undecoded? then s
    else
      var s' := s.(nodes := Discover(s.nodes, Address(from), now));
      if m.Response? && m.reply.Some? && m.transaction.Some?
      then OnResponse(s', draw, m.transaction.value, m.reply.value, callbackThrows)
      else s'
  }

  function Settle(s: State, id: string, outcome: Outcome): State
    requires id in s.pending
  {
    s.(pending := s.pending - {id}, settled := s.settled[s.pending[id].serial := outcome])
  }

  function OnResponse(s: State, draw: nat -> string, id: string, r: Reply, callbackThrows: bool): State {
    if id !in s.pending then s
    else
      match s.pending[id].kind
      case FindNode => OnFindNodeReply(Settle(s, id, Answered), draw, r)
      case GetPeers(h) => OnGetPeersReply(Settle(s, id, Answered), draw, h, r, callbackThrows)
  }

  function NodesOf(r: Reply): seq<Peer> { if r.nodes.None? then [] else Peers(ParseNodes(r.nodes.value)) }

  function OnFindNodeReply(s: State, draw: nat -> string, r: Reply): State {
    if |s.nodes| < 1000 then SendAll(s, draw, NodesOf(r), FindNode) else s
  }

  function FoundIn(r: Reply): seq<Peer> { if r.values.None? then [] else ParseCompact(r.values.value) }

  function Record(s: State, h: string, found: seq<Peer>): State {
    if found == [] then s
    else s.(peers := s.peers[h := AddAll(if h in s.peers then s.peers[h] else [], Addresses(found))])
  }

  function OnGetPeersReply(s: State, draw: nat -> string, h: string, r: Reply, callbackThrows: bool): State {
    var s' := Record(s, h, FoundIn(r));
    if (FoundIn(r) != [] && callbackThrows) || h !in s'.targets then s'
    else SendAll(s', draw, NodesOf(r), GetPeers(Hex(FromHex(h))))
  }

  function OnTimeout(s: State, id: string): State { if id in s.pending then Settle(s, id, TimedOut) else s }

  /** `Math.floor(Math.random() * length)` is any index below the length. */
  function Pick(addresses: seq<string>, random: nat): Peer
    requires addresses != []
  {
    ParseAddress(addresses[random % |addresses|])
  }

  /** The `n` random picks of `refreshConnections`, with replacement. */
  function Picked(addresses: seq<string>, picks: nat -> nat, n: nat): (to: seq<Peer>)
    requires addresses != [] || n == 0
    ensures |to| == n
  {
    if n == 0 then [] else Picked(addresses, picks, n - 1) + [Pick(addresses, picks(n - 1))]
  }

  function OnRefresh(s: State, draw: nat -> string, picks: nat -> nat): State {
    if !s.enabled then s
    else
      var s' := SendAll(s, draw, Picked(Known(s.nodes), picks, Min(20, |s.nodes|)), FindNode);
      if |s.nodes| < 20 then SendAll(s', draw, BOOTSTRAP, FindNode) else s'
  }

  function Recent(nodes: seq<Node>, now: int): seq<Node> {
    if nodes == [] then []
    else
      var n := nodes[|nodes| - 1];
      Recent(nodes[..|nodes| - 1], now) + (if now - n.seen > 3 * 60 * 60 * 1000 then [] else [n])
  }

  function OnStop(s: State): State {
    if !s.enabled then s
    else
      State(false, false, [], map[], {}, map[], s.sent,
            s.settled + map q | q in Serials(s.pending) :: Cleared)
  }

  function Serials(pending: map<string, Request>): set<nat> { set id | id in pending :: pending[id].serial }

  function Step(s: State, draw: nat -> string, e: Event): State {
    match e
    case Connect(created) => OnConnect(s, created)
    case Bound(addressKnown) => OnBound(s, draw, addressKnown)
    case SocketError => s.(socket := false, enabled := false)
    case SocketClosed => s.(enabled := false)
    case Announce(h) => OnAnnounce(s, draw, h)
    case Receive(m, from, now, throws) => OnReceive(s, draw, m, from, now, throws)
    case Timeout(id) => OnTimeout(s, id)
    case Refresh(picks) => OnRefresh(s, draw, picks)
    case CleanupNodes(now) => if s.enabled then s.(nodes := Recent(s.nodes, now)) else s
    case Stop => OnStop(s)
  }

  /** The socket reports the sender of a datagram as a dotted quad and a port from 1 to 65535. */
  ghost predicate Possible(e: Event) { e.Receive? ==> Canonical(e.from) }

  function Run(draw: nat -> string, es: seq<Event>): State {
    if es == [] then Initial else Step(Run(draw, es[..|es| - 1]), draw, es[|es| - 1])
  }

  // ---------- what every state satisfies ----------

  ghost predicate GoodAddresses(a: seq<string>) { NoRepeats(a) && forall x :: x in a ==> CanonicalAddress(x) }

  ghost predicate IsHex(h: string) { exists b: seq<Byte> :: h == Hex(b) }

  ghost predicate Safe(s: State) {
    && (s.enabled ==> s.socket)
    && (forall h :: h in s.targets ==> IsHex(h))
    && (forall id :: id in s.pending && s.pending[id].kind.GetPeers? ==> s.pending[id].kind.infoHash in s.targets)
    && (forall h :: h in s.peers ==> h in s.targets && s.peers[h] != [] && GoodAddresses(s.peers[h]))
    && GoodAddresses(Known(s.nodes))
    && (forall q :: 0 <= q < |s.sent| ==> s.sent[q].overSocket)
  }

  /** Query `q` is still waiting for its answer. */
  ghost predicate Waiting(s: State, draw: nat -> string, q: nat) {
    draw(q) in s.pending && s.pending[draw(q)].serial == q
  }

  /** Some query after `q` drew the same transaction id. */
  ghost predicate Reused(draw: nat -> string, q: nat, n: nat) { exists q' :: q < q' < n && draw(q') == draw(q) }

  ghost predicate Ledger(s: State, draw: nat -> string) {
    && (forall id :: id in s.pending ==>
                       var r := s.pending[id];
                       r.serial < |s.sent| && draw(r.serial) == id &&
                       s.sent[r.serial].to == r.to && s.sent[r.serial].kind == r.kind)
    && (forall q :: q in s.settled ==> q < |s.sent|)
    && (forall q: nat :: q < |s.sent| ==> (q in s.settled <==> !Waiting(s, draw, q)))
    && (forall q :: q in s.settled && s.settled[q] == Overwritten ==> Reused(draw, q, |s.sent|))
  }

  /** History only grows: no query is forgotten and no outcome changes. */
  ghost predicate Extends(s: State, s': State) {
    s.sent <= s'.sent && forall q :: q in s.settled ==> q in s'.settled && s'.settled[q] == s.settled[q]
  }

  ghost predicate Inv(s: State, draw: nat -> string) { Safe(s) && Ledger(s, draw) }

  // ---------- sending keeps the invariant ----------

  /** Sending touches nothing but the pending table and the history. */
  ghost predicate SameBut(s: State, s': State) {
    s' == s.(pending := s'.pending, sent := s'.sent, settled := s'.settled)
  }

  lemma SendKeeps(s: State, draw: nat -> string, to: Peer, kind: Kind)
    requires Inv(s, draw) && (kind.GetPeers? ==> kind.infoHash in s.targets)
    ensures var s' := Send(s, draw, to, kind); Inv(s', draw) && Extends(s, s') && SameBut(s, s')
  {
    if s.enabled {
      SendKeepsLedger(s, draw, to, kind);
    }
  }

  lemma SendKeepsLedger(s: State, draw: nat -> string, to: Peer, kind: Kind)
    requires Ledger(s, draw) && s.enabled
    ensures var s' := Send(s, draw, to, kind); Ledger(s', draw) && Extends(s, s')
  {
  }

  lemma {:induction false} SendAllKeeps(s: State, draw: nat -> string, to: seq<Peer>, kind: Kind)
    requires Inv(s, draw) && (kind.GetPeers? ==> kind.infoHash in s.targets)
    ensures var s' := SendAll(s, draw, to, kind); Inv(s', draw) && Extends(s, s') && SameBut(s, s')
  {
    if to != [] {
      SendAllKeeps(s, draw, to[..|to| - 1], kind);
      SendKeeps(SendAll(s, draw, to[..|to| - 1], kind), draw, to[|to| - 1], kind);
    }
  }

  // ---------- the events keep the invariant ----------

  lemma SettleKeeps(s: State, draw: nat -> string, id: string, outcome: Outcome)
    requires Inv(s, draw) && id in s.pending && outcome != Overwritten
    ensures var s' := Settle(s, id, outcome); Inv(s', draw) && Extends(s, s')
  {
  }

  predicate Holds(nodes: seq<Node>, address: string) { exists i :: 0 <= i < |nodes| && nodes[i].address == address }

  lemma {:induction false} DiscoverShape(nodes: seq<Node>, address: string, now: int)
    ensures var d := Discover(nodes, address, now);
            && |d| == |nodes| + (if Holds(nodes, address) then 0 else 1)
            && (forall i :: 0 <= i < |nodes| ==> d[i].address == nodes[i].address)
            && (!Holds(nodes, address) ==> d[|nodes|].address == address)
  {
    if nodes != [] && nodes[0].address != address {
      var rest := nodes[1..];
      DiscoverShape(rest, address, now);
      assert forall i :: 0 <= i < |rest| ==> rest[i] == nodes[i + 1];
      if Holds(nodes, address) {
        var i :| 0 <= i < |nodes| && nodes[i].address == address;
        assert rest[i - 1].address == address;
      }
    }
  }

  lemma {:induction false} DiscoverAdds(nodes: seq<Node>, address: string, now: int)
    ensures Known(Discover(nodes, address, now)) ==
            if address in Known(nodes) then Known(nodes) else Known(nodes) + [address]
  {
    DiscoverShape(nodes, address, now);
    assert address in Known(nodes) <==> Holds(nodes, address) by {
      if address in Known(nodes) {
        var i :| 0 <= i < |nodes| && Known(nodes)[i] == address;
        assert nodes[i].address == address;
      }
    }
  }

  lemma GoodAppend(a: seq<string>, x: string)
    requires GoodAddresses(a) && x !in a && CanonicalAddress(x)
    ensures GoodAddresses(a + [x])
  {
  }

  lemma GoodFront(a: seq<string>, x: string)
    requires GoodAddresses(a + [x])
    ensures GoodAddresses(a) && x !in a && CanonicalAddress(x)
  {
    var b := a + [x];
    assert forall i :: 0 <= i < |a| ==> a[i] == b[i];
    assert b[|a|] == x && x in b;
    assert forall y :: y in a ==> y in b;
  }

  lemma {:induction false} RecentKeeps(nodes: seq<Node>, now: int)
    requires GoodAddresses(Known(nodes))
    ensures GoodAddresses(Known(Recent(nodes, now)))
    ensures forall a :: a in Known(Recent(nodes, now)) ==> a in Known(nodes)
  {
    if nodes != [] {
      var front, last := nodes[..|nodes| - 1], nodes[|nodes| - 1];
      GoodFront(Known(front), last.address);
      RecentKeeps(front, now);
      var r := Recent(front, now);
      if now - last.seen > 3 * 60 * 60 * 1000 {
        assert Recent(nodes, now) == r;
      } else {
        assert Known(r + [last]) == Known(r) + [last.address];
        GoodAppend(Known(r), last.address);
      }
    }
  }

  lemma FoundCanonical(r: Reply)
    ensures forall a :: a in Addresses(FoundIn(r)) ==> CanonicalAddress(a)
  {
    var found := FoundIn(r);
    forall i | 0 <= i < |found| ensures CanonicalAddress(Addresses(found)[i]) {
      ParsedPeersCanonical(r.values.value, i);
    }
  }

  lemma {:induction false} GoodUnion(known: seq<string>, more: seq<string>)
    requires GoodAddresses(known) && forall a :: a in more ==> CanonicalAddress(a)
    ensures GoodAddresses(AddAll(known, more)) && (more != [] ==> AddAll(known, more) != [])
  {
    AddAllIsUnion(known, more);
    assert more != [] ==> more[0] in AddAll(known, more);
  }

  lemma StoreKeeps(s: State, draw: nat -> string, h: string, known: seq<string>)
    requires Inv(s, draw) && h in s.targets && GoodAddresses(known) && known != []
    ensures Inv(s.(peers := s.peers[h := known]), draw)
  {
  }

  lemma {:induction false} RecordKeeps(s: State, draw: nat -> string, h: string, r: Reply)
    requires Inv(s, draw) && h in s.targets
    ensures Inv(Record(s, h, FoundIn(r)), draw) && Extends(s, Record(s, h, FoundIn(r)))
  {
    var known := if h in s.peers then s.peers[h] else [];
    var more := Addresses(FoundIn(r));
    if more != [] {
      FoundCanonical(r);
      GoodUnion(known, more);
      StoreKeeps(s, draw, h, AddAll(known, more));
    }
  }

  lemma GetPeersReplyKeeps(s: State, draw: nat -> string, h: string, r: Reply, throws: bool)
    requires Inv(s, draw) && h in s.targets
    ensures var s' := OnGetPeersReply(s, draw, h, r, throws); Inv(s', draw) && Extends(s, s')
  {
    RecordKeeps(s, draw, h, r);
    var b: seq<Byte> :| h == Hex(b);
    HexRoundTrip(b);
    SendAllKeeps(Record(s, h, FoundIn(r)), draw, NodesOf(r), GetPeers(h));
  }

  lemma {:induction false} ResponseKeeps(s: State, draw: nat -> string, id: string, r: Reply, throws: bool)
    requires Inv(s, draw)
    ensures var s' := OnResponse(s, draw, id, r, throws); Inv(s', draw) && Extends(s, s')
  {
    if id in s.pending {
      var a := Settle(s, id, Answered);
      SettleKeeps(s, draw, id, Answered);
      match s.pending[id].kind
      case FindNode =>
        SendAllKeeps(a, draw, NodesOf(r), FindNode);
      case GetPeers(h) =>
        GetPeersReplyKeeps(a, draw, h, r, throws);
    }
  }

  lemma AnnounceKeeps(s: State, draw: nat -> string, infoHash: InfoHash)
    requires Inv(s, draw)
    ensures var s' := OnAnnounce(s, draw, infoHash); Inv(s', draw) && Extends(s, s')
  {
    var hash := HashOf(infoHash);
    if s.enabled && hash.Some? {
      var h := Hex(hash.value);
      var t := s.(targets := s.targets + {h});
      assert Ledger(t, draw);
      SendAllKeeps(t, draw, ParseAddresses(Known(s.nodes)), GetPeers(h));
    }
  }

  lemma StopKeeps(s: State, draw: nat -> string)
    requires Inv(s, draw)
    ensures Inv(OnStop(s), draw) && Extends(s, OnStop(s))
  {
  }

  /** Flags and nodes are no part of the ledger. */
  lemma OutsideLedger(s: State, draw: nat -> string, t: State)
    requires Inv(s, draw)
    requires t == s.(enabled := t.enabled, socket := t.socket, nodes := t.nodes)
    requires (t.enabled ==> t.socket) && GoodAddresses(Known(t.nodes))
    ensures Inv(t, draw) && Extends(s, t)
  {
  }

  lemma BoundKeeps(s: State, draw: nat -> string, addressKnown: bool)
    requires Inv(s, draw)
    ensures var s' := OnBound(s, draw, addressKnown); Inv(s', draw) && Extends(s, s')
  {
    if s.socket {
      var t := s.(enabled := true);
      OutsideLedger(s, draw, t);
      SendAllKeeps(t, draw, BOOTSTRAP, FindNode);
    }
  }

  lemma DiscoverKeeps(nodes: seq<Node>, from: Peer, now: int)
    requires GoodAddresses(Known(nodes)) && Canonical(from)
    ensures GoodAddresses(Known(Discover(nodes, Address(from), now)))
  {
    var a := Address(from);
    assert CanonicalAddress(a);
    DiscoverAdds(nodes, a, now);
    if a !in Known(nodes) {
      GoodAppend(Known(nodes), a);
    }
  }

  lemma ReceiveKeeps(s: State, draw: nat -> string, m: Message, from: Peer, now: int, throws: bool)
    requires Inv(s, draw) && Canonical(from)
    ensures var s' := OnReceive(s, draw, m, from, now, throws); Inv(s', draw) && Extends(s, s')
  {
    DiscoverKeeps(s.nodes, from, now);
    var t := s.(nodes := Discover(s.nodes, Address(from), now));
    OutsideLedger(s, draw, t);
    if m.Response? && m.reply.Some? && m.transaction.Some? {
      ResponseKeeps(t, draw, m.transaction.value, m.reply.value, throws);
    }
  }

  lemma RefreshKeeps(s: State, draw: nat -> string, picks: nat -> nat)
    requires Inv(s, draw)
    ensures var s' := OnRefresh(s, draw, picks); Inv(s', draw) && Extends(s, s')
  {
    if s.enabled {
      var to := Picked(Known(s.nodes), picks, Min(20, |s.nodes|));
      SendAllKeeps(s, draw, to, FindNode);
      SendAllKeeps(SendAll(s, draw, to, FindNode), draw, BOOTSTRAP, FindNode);
    }
  }

  /** Each event keeps the invariant and only extends the history. */
  lemma StepKeeps(s: State, draw: nat -> string, e: Event)
    requires Inv(s, draw) && Possible(e)
    ensures Inv(Step(s, draw, e), draw) && Extends(s, Step(s, draw, e))
  {
    match e
    case Connect(_) => OutsideLedger(s, draw, Step(s, draw, e));
    case SocketError => OutsideLedger(s, draw, Step(s, draw, e));
    case SocketClosed => OutsideLedger(s, draw, Step(s, draw, e));
    case Bound(known) => BoundKeeps(s, draw, known);
    case Announce(h) => AnnounceKeeps(s, draw, h);
    case Receive(m, from, now, throws) => ReceiveKeeps(s, draw, m, from, now, throws);
    case Timeout(id) =>
      if id in s.pending {
        SettleKeeps(s, draw, id, TimedOut);
      }
    case Refresh(picks) => RefreshKeeps(s, draw, picks);
    case CleanupNodes(now) =>
      RecentKeeps(s.nodes, now);
      OutsideLedger(s, draw, Step(s, draw, e));
    case Stop => StopKeeps(s, draw);
  }

  // ---------- main results ----------

  /** Under every order of events and every decoded message, every reachable state is safe and balanced. */
  lemma {:induction false} RunSafe(draw: nat -> string, es: seq<Event>)
    requires forall i :: 0 <= i < |es| ==> Possible(es[i])
    ensures Inv(Run(draw, es), draw)
  {
    if es != [] {
      RunSafe(draw, es[..|es| - 1]);
      StepKeeps(Run(draw, es[..|es| - 1]), draw, es[|es| - 1]);
    }
  }

  /**
   However a run goes on, what was settled stays settled the same way: never answered twice, never
   answered and timed out.
   */
  lemma {:induction false} OutcomesAreFinal(draw: nat -> string, es: seq<Event>, k: nat)
    requires forall i :: 0 <= i < |es| ==> Possible(es[i])
    requires k <= |es|
    ensures Extends(Run(draw, es[..k]), Run(draw, es))
  {
    if k == |es| {
      assert es[..k] == es;
    } else {
      var front := es[..|es| - 1];
      assert front[..k] == es[..k];
      OutcomesAreFinal(draw, front, k);
      RunSafe(draw, front);
      StepKeeps(Run(draw, front), draw, es[|es| - 1]);
    }
  }

  function Settled(s: State, o: Outcome): set<nat> { set q | q in s.settled && s.settled[q] == o }

  /** The books balance: registered queries are the answered, timed out, cleared, overwritten and pending ones. */
  lemma {:induction false} QueriesBalance(draw: nat -> string, es: seq<Event>)
    requires forall i :: 0 <= i < |es| ==> Possible(es[i])
    ensures var s := Run(draw, es);
            |s.sent| == |Settled(s, Answered)| + |Settled(s, TimedOut)|
            + |Settled(s, Cleared)| + |Settled(s, Overwritten)| + |s.pending|
  {
    RunSafe(draw, es);
    var s := Run(draw, es);
    SettledSplit(s);
    CountSerials(s.pending, draw);
    var w := Serials(s.pending);
    forall q | q in w ensures q < |s.sent| && q !in s.settled {
      var id :| id in s.pending && s.pending[id].serial == q;
      assert Waiting(s, draw, q);
    }
    forall q | q in Below(|s.sent|) ensures q in s.settled.Keys + w {
      assert q in s.settled <==> !Waiting(s, draw, q);
    }
    assert Below(|s.sent|) == s.settled.Keys + w;
    assert s.settled.Keys !! w;
  }

  lemma SettledSplit(s: State)
    ensures |s.settled.Keys| == |Settled(s, Answered)| + |Settled(s, TimedOut)|
                                + |Settled(s, Cleared)| + |Settled(s, Overwritten)|
  {
    var a, t, c, o := Settled(s, Answered), Settled(s, TimedOut), Settled(s, Cleared), Settled(s, Overwritten);
    assert s.settled.Keys == a + (t + (c + o));
    assert |c + o| == |c| + |o|;
    assert |t + (c + o)| == |t| + |c + o|;
  }

  function Below(n: nat): (s: set<nat>)
    ensures |s| == n && forall q: nat :: q in s <==> q < n
  {
    if n == 0 then {} else Below(n - 1) + {n - 1}
  }

  lemma {:induction false} CountSerials(pending: map<string, Request>, draw: nat -> string)
    requires forall id :: id in pending ==> draw(pending[id].serial) == id
    ensures |Serials(pending)| == |pending|
  {
    if pending == map[] {
      assert Serials(pending) == {};
    } else {
      var id :| id in pending;
      var rest := pending - {id};
      CountSerials(rest, draw);
      assert pending.Keys == rest.Keys + {id};
      assert Serials(pending) == Serials(rest) + {pending[id].serial};
    }
  }

  /** With fresh transaction ids no pending request is ever overwritten. */
  lemma {:induction false} FreshIdsNeverCollide(draw: nat -> string, es: seq<Event>)
    requires forall i :: 0 <= i < |es| ==> Possible(es[i])
    requires forall i: nat, j: nat :: i < j < |Run(draw, es).sent| ==> draw(i) != draw(j)
    ensures Settled(Run(draw, es), Overwritten) == {}
  {
    RunSafe(draw, es);
  }

  /** Every stored address prints back from its parsed form; parsing loses nothing. */
  lemma StoredAddress(a: string)
    requires CanonicalAddress(a)
    ensures Canonical(ParseAddress(a)) && Address(ParseAddress(a)) == a
  {
    var p :| Canonical(p) && a == Address(p);
    AddressRoundTrip(p);
  }

  lemma {:induction false} PackedAddresses(known: seq<string>)
    requires GoodAddresses(known)
    ensures var values := CreateCompact(ParseAddresses(known));
            && |values| == |known|
            && (forall i :: 0 <= i < |values| ==> values[i].Buffer? && |values[i].bytes| == 6)
            && ParseCompact(values) == ParseAddresses(known)
  {
    forall i | 0 <= i < |known| ensures Canonical(ParseAddresses(known)[i]) {
      StoredAddress(known[i]);
    }
    CompactRoundTrip(ParseAddresses(known));
  }

  lemma {:induction false} PrintedBack(known: seq<string>)
    requires GoodAddresses(known)
    ensures Addresses(ParseAddresses(known)) == known
  {
    forall i | 0 <= i < |known| ensures Addresses(ParseAddresses(known))[i] == known[i] {
      StoredAddress(known[i]);
    }
  }

  /** The `values` of a get_peers reply: one six-byte entry a known peer, and parsing them gives back the stored set. */
  lemma {:induction false} ValuesAreKnownPeers(draw: nat -> string, es: seq<Event>, h: string)
    requires forall i :: 0 <= i < |es| ==> Possible(es[i])
    requires h in Run(draw, es).peers
    ensures var known := Run(draw, es).peers[h];
            var values := CreateCompact(ParseAddresses(known));
            && |values| == |known| > 0
            && (forall i :: 0 <= i < |values| ==> values[i].Buffer? && |values[i].bytes| == 6)
            && Addresses(ParseCompact(values)) == known
  {
    RunSafe(draw, es);
    PackedAddresses(Run(draw, es).peers[h]);
    PrintedBack(Run(draw, es).peers[h]);
  }

  // ---------- what single events achieve ----------

  /** One query to each of `to`, in order, over the socket. */
  function Queries(to: seq<Peer>, kind: Kind): seq<Query> {
    if to == [] then [] else Queries(to[..|to| - 1], kind) + [Query(to[|to| - 1], kind, true)]
  }

  lemma {:induction false} SendAllLog(s: State, draw: nat -> string, to: seq<Peer>, kind: Kind)
    requires s.enabled && s.socket
    ensures var s' := SendAll(s, draw, to, kind); SameBut(s, s') && s'.sent == s.sent + Queries(to, kind)
  {
    if to != [] {
      SendAllLog(s, draw, to[..|to| - 1], kind);
    }
  }

  /** Announcing makes the hash a target and asks every known node, in order, at exactly its address. */
  lemma {:induction false} AnnounceAsksEveryNode(s: State, draw: nat -> string, infoHash: InfoHash)
    requires Safe(s) && s.enabled && HashOf(infoHash).Some?
    ensures var s' := OnAnnounce(s, draw, infoHash);
            var h := Hex(HashOf(infoHash).value);
            && s'.targets == s.targets + {h} && s'.nodes == s.nodes && s'.peers == s.peers
            && exists to :: Addresses(to) == Known(s.nodes) && s'.sent == s.sent + Queries(to, GetPeers(h))
  {
    var h := Hex(HashOf(infoHash).value);
    SendAllLog(s.(targets := s.targets + {h}), draw, ParseAddresses(Known(s.nodes)), GetPeers(h));
    PrintedBack(Known(s.nodes));
  }

  ghost predicate KnownPeer(s: State, h: string, a: string) { h in s.peers && a in s.peers[h] }

  lemma {:induction false} SendAllSame(s: State, draw: nat -> string, to: seq<Peer>, kind: Kind)
    ensures SameBut(s, SendAll(s, draw, to, kind))
  {
    if to != [] {
      SendAllSame(s, draw, to[..|to| - 1], kind);
    }
  }

  /** An answer to a pending get_peers query teaches exactly the peers it carries. */
  lemma AnswerLearnsPeers(s: State, draw: nat -> string, id: string, r: Reply, throws: bool)
    requires id in s.pending && s.pending[id].kind.GetPeers?
    ensures var s' := OnResponse(s, draw, id, r, throws);
            forall h, a :: KnownPeer(s', h, a) <==>
                           KnownPeer(s, h, a) || (h == s.pending[id].kind.infoHash && a in Addresses(FoundIn(r)))
  {
    var h := s.pending[id].kind.infoHash;
    var t := Settle(s, id, Answered);
    AddAllIsUnion(if h in s.peers then s.peers[h] else [], Addresses(FoundIn(r)));
    var u := Record(t, h, FoundIn(r));
    SendAllSame(u, draw, NodesOf(r), GetPeers(Hex(FromHex(h))));
    assert OnResponse(s, draw, id, r, throws).peers == u.peers;
    assert forall g, a :: KnownPeer(u, g, a) <==> KnownPeer(s, g, a) || (g == h && a in Addresses(FoundIn(r)));
  }

  /** It settles the query and passes the search on to every node it names, for the same hash. */
  lemma {:induction false} AnswerContinuesSearch(s: State, draw: nat -> string, id: string, r: Reply, throws: bool)
    requires Inv(s, draw) && s.enabled && id in s.pending && s.pending[id].kind.GetPeers?
    requires !throws || FoundIn(r) == []
    ensures var s' := OnResponse(s, draw, id, r, throws);
            && s.pending[id].serial in s'.settled && s'.settled[s.pending[id].serial] == Answered
            && s'.sent == s.sent + Queries(NodesOf(r), s.pending[id].kind)
  {
    SettleKeeps(s, draw, id, Answered);
    ReplyContinues(
      Settle(s, id, Answered), draw, s.pending[id].kind.infoHash, r, throws, s.pending[id].serial);
  }

  lemma {:induction false} ReplyContinues(
    s: State, draw: nat -> string, h: string, r: Reply, throws: bool, q: nat)
    requires Inv(s, draw) && s.enabled && h in s.targets && (!throws || FoundIn(r) == [])
    requires q in s.settled && s.settled[q] == Answered
    ensures var s' := OnGetPeersReply(s, draw, h, r, throws);
            q in s'.settled && s'.settled[q] == Answered && s'.sent == s.sent + Queries(NodesOf(r), GetPeers(h))
  {
    RecordKeeps(s, draw, h, r);
    var b: seq<Byte> :| h == Hex(b);
    HexRoundTrip(b);
    ContinueSearch(Record(s, h, FoundIn(r)), draw, NodesOf(r), GetPeers(h), q);
  }

  lemma ContinueSearch(s: State, draw: nat -> string, to: seq<Peer>, kind: Kind, q: nat)
    requires Inv(s, draw) && s.enabled && kind.GetPeers? && kind.infoHash in s.targets
    requires q in s.settled && s.settled[q] == Answered
    ensures var s' := SendAll(s, draw, to, kind);
            q in s'.settled && s'.settled[q] == Answered && s'.sent == s.sent + Queries(to, kind)
  {
    SendAllKeeps(s, draw, to, kind);
    SendAllLog(s, draw, to, kind);
  }

  /** A find_node answer settles its query and, while fewer than 1000 nodes are known, asks every node it names. */
  lemma AnswerExplores(s: State, draw: nat -> string, id: string, r: Reply, throws: bool)
    requires Safe(s) && s.enabled && id in s.pending && s.pending[id].kind.FindNode?
    ensures var s' := OnResponse(s, draw, id, r, throws);
            && s'.sent == s.sent + (if |s.nodes| < 1000 then Queries(NodesOf(r), FindNode) else [])
            && s'.peers == s.peers && s'.targets == s.targets && s'.nodes == s.nodes
  {
    SendAllLog(Settle(s, id, Answered), draw, NodesOf(r), FindNode);
  }

  /** Connecting and being bound starts the client, with one find_node query to each bootstrap node. */
  lemma StartUp(s: State, draw: nat -> string)
    requires !s.enabled
    ensures var s' := Step(Step(s, draw, Connect(true)), draw, Bound(true));
            s'.enabled && s'.socket && s'.sent == s.sent + Queries(BOOTSTRAP, FindNode)
  {
    SendAllLog(s.(socket := true, enabled := true), draw, BOOTSTRAP, FindNode);
  }

  lemma {:induction false} DisabledSendsNothing(s: State, draw: nat -> string, to: seq<Peer>, kind: Kind)
    requires !s.enabled
    ensures SendAll(s, draw, to, kind) == s
  {
    if to != [] {
      DisabledSendsNothing(s, draw, to[..|to| - 1], kind);
    }
  }

  lemma DisabledResponse(s: State, draw: nat -> string, id: string, r: Reply, throws: bool)
    requires !s.enabled
    ensures var s' := OnResponse(s, draw, id, r, throws); !s'.enabled && s'.sent == s.sent && s'.targets == s.targets
  {
    if id in s.pending {
      var u := Settle(s, id, Answered);
      match s.pending[id].kind
      case FindNode => DisabledSendsNothing(u, draw, NodesOf(r), FindNode);
      case GetPeers(h) => DisabledSendsNothing(Record(u, h, FoundIn(r)), draw, NodesOf(r), GetPeers(Hex(FromHex(h))));
    }
  }

  /**
   While disabled, after a stop, an error or a close, no event but the bind callback sends a query or
   enables the client.
   */
  lemma SilentWhileDisabled(s: State, draw: nat -> string, e: Event)
    requires !s.enabled && !e.Bound?
    ensures var s' := Step(s, draw, e); !s'.enabled && s'.sent == s.sent && s'.targets == s.targets
  {
    if e.Receive? && e.message.Response? && e.message.reply.Some? && e.message.transaction.Some? {
      var t := s.(nodes := Discover(s.nodes, Address(e.from), e.now));
      DisabledResponse(t, draw, e.message.transaction.value, e.message.reply.value, e.callbackThrows);
    }
  }

  /** The hourly cleanup keeps exactly the nodes seen in the last three hours. */
  lemma {:induction false} RecentExact(nodes: seq<Node>, now: int, n: Node)
    ensures n in Recent(nodes, now) <==> n in nodes && now - n.seen <= 3 * 60 * 60 * 1000
  {
    if nodes != [] {
      RecentExact(nodes[..|nodes| - 1], now, n);
      assert nodes == nodes[..|nodes| - 1] + [nodes[|nodes| - 1]];
    }
  }

  /** Stopping a running client forgets everything and leaves no query unsettled: all that waited are cleared. */
  lemma StopSettlesAll(s: State, draw: nat -> string, q: nat)
    requires Inv(s, draw) && s.enabled && q < |s.sent|
    ensures var s' := OnStop(s);
            && s' == Initial.(sent := s.sent, settled := s'.settled)
            && q in s'.settled && (Waiting(s, draw, q) ==> s'.settled[q] == Cleared)
  {
  }

  /** The timer of query `q` settles that query or nothing, as long as later queries drew other ids. */
  lemma TimerSettlesItsOwn(s: State, draw: nat -> string, q: nat)
    requires Inv(s, draw) && q < |s.sent| && !Reused(draw, q, |s.sent|)
    requires forall q': nat :: q' < q ==> draw(q') != draw(q)
    ensures var s' := OnTimeout(s, draw(q));
            if Waiting(s, draw, q) then s'.settled == s.settled[q := TimedOut] else s' == s
  {
  }
}
