/** What each event does to the client, in terms of the messages and texts that come in. */
module DhtEvents {
  import opened Text
  import opened Compact
  import opened Dht

  // ---------- a message arrives ----------

  /** The sender is known, last heard of `now`; every other node is as before, and the order is kept. */
  ghost predicate Heard(nodes: seq<Node>, nodes': seq<Node>, address: string, now: int) {
    && Known(nodes') == (if address in Known(nodes) then Known(nodes) else Known(nodes) + [address])
    && forall i :: 0 <= i < |nodes'| ==>
                     if nodes'[i].address == address then nodes'[i].seen == now
                     else i < |nodes| && nodes'[i] == nodes[i]
  }

  lemma {:induction false} DiscoverTimes(nodes: seq<Node>, address: string, now: int)
    requires NoRepeats(Known(nodes))
    ensures var d := Discover(nodes, address, now);
            forall i :: 0 <= i < |d| ==>
                          if d[i].address == address then d[i].seen == now else i < |nodes| && d[i] == nodes[i]
  {
    if nodes != [] {
      KnownRest(nodes);
      if nodes[0].address != address {
        DiscoverTimes(nodes[1..], address, now);
      }
    }
  }

  lemma {:induction false} KnownRest(nodes: seq<Node>)
    requires nodes != [] && NoRepeats(Known(nodes))
    ensures NoRepeats(Known(nodes[1..])) && forall i :: 0 < i < |nodes| ==> nodes[i].address != nodes[0].address
  {
    var a, b := Known(nodes), Known(nodes[1..]);
    assert forall i :: 0 <= i < |b| ==> b[i] == a[i + 1];
    assert forall i :: 0 < i < |nodes| ==> a[0] != a[i];
  }

  lemma {:induction false} DiscoverHears(nodes: seq<Node>, address: string, now: int)
    requires NoRepeats(Known(nodes))
    ensures Heard(nodes, Discover(nodes, address, now), address, now)
  {
    DiscoverTimes(nodes, address, now);
    DiscoverAdds(nodes, address, now);
  }

  /** The state in which the reply is looked at. */
  function Recorded(s: State, from: Peer, now: int): State { s.(nodes := Discover(s.nodes, Address(from), now)) }

  lemma {:induction false} RecordedKeeps(s: State, draw: nat -> string, from: Peer, now: int)
    requires Inv(s, draw) && Canonical(from)
    ensures Inv(Recorded(s, from, now), draw) && Extends(s, Recorded(s, from, now))
    ensures Heard(s.nodes, Recorded(s, from, now).nodes, Address(from), now)
  {
    DiscoverKeeps(s.nodes, from, now);
    DiscoverHears(s.nodes, Address(from), now);
    OutsideLedger(s, draw, Recorded(s, from, now));
  }

  /** Query `q`, which was waiting, is answered; an entry under its id is a new query. */
  ghost predicate AnsweredOnce(s: State, s': State, id: string, q: nat) {
    && q in s'.settled && s'.settled[q] == Answered
    && (id in s'.pending ==> s'.pending[id].serial >= |s.sent|)
  }

  /** Flags and targets are as before. */
  predicate SameSetup(s: State, s': State) {
    s'.enabled == s.enabled && s'.socket == s.socket && s'.targets == s.targets
  }

  lemma {:induction false} ResponseAnswers(s: State, draw: nat -> string, id: string, r: Reply, throws: bool)
    requires Inv(s, draw) && id in s.pending
    ensures var s' := OnResponse(s, draw, id, r, throws);
            Extends(Settle(s, id, Answered), s') && SameSetup(s, s') && s'.nodes == s.nodes
  {
    var a := Settle(s, id, Answered);
    SettleKeeps(s, draw, id, Answered);
    match s.pending[id].kind
    case FindNode =>
      SendAllKeeps(a, draw, NodesOf(r), FindNode);
    case GetPeers(h) =>
      GetPeersReplyKeeps(a, draw, h, r, throws);
      GetPeersReplySame(a, draw, h, r, throws);
  }

  lemma {:induction false} GetPeersReplySame(s: State, draw: nat -> string, h: string, r: Reply, throws: bool)
    ensures var s' := OnGetPeersReply(s, draw, h, r, throws); SameSetup(s, s') && s'.nodes == s.nodes
  {
    SendAllSame(Record(s, h, FoundIn(r)), draw, NodesOf(r), GetPeers(Hex(FromHex(h))));
  }

  /** Of the queries that drew an id only the pending one is not settled. */
  lemma NotWaitingTwice(s: State, draw: nat -> string, id: string, p: nat)
    requires Ledger(s, draw) && id in s.pending && draw(p) == id
    ensures p < |s.sent| && p != s.pending[id].serial ==> p in s.settled
  {
    if p < |s.sent| && p != s.pending[id].serial {
      assert !Waiting(s, draw, p);
    }
  }

  lemma {:induction false} SettledOnce(s: State, draw: nat -> string, s': State, id: string)
    requires Ledger(s, draw) && Ledger(s', draw) && id in s.pending && Extends(Settle(s, id, Answered), s')
    ensures AnsweredOnce(s, s', id, s.pending[id].serial)
  {
    if id in s'.pending {
      assert Waiting(s', draw, s'.pending[id].serial);
      NotWaitingTwice(s, draw, id, s'.pending[id].serial);
    }
  }

  /** The reply answers the query and says nothing about anything else. */
  lemma {:induction false} ResponseSpec(s: State, draw: nat -> string, id: string, r: Reply, throws: bool)
    requires Inv(s, draw) && id in s.pending
    ensures var s' := OnResponse(s, draw, id, r, throws);
            AnsweredOnce(s, s', id, s.pending[id].serial) && SameSetup(s, s') && s'.nodes == s.nodes
  {
    ResponseAnswers(s, draw, id, r, throws);
    ResponseKeeps(s, draw, id, r, throws);
    SettledOnce(s, draw, OnResponse(s, draw, id, r, throws), id);
  }

  /** `ps` are the peers in the `values` and `ns` the nodes in the `nodes` of a reply. */
  ghost predicate Carries(r: Reply, ps: seq<Peer>, ns: seq<Peer>) {
    && (if r.values.None? then ps == [] else ParseCompact(r.values.value) == ps)
    && (if r.nodes.None? then ns == [] else Peers(ParseNodes(r.nodes.value)) == ns)
  }

  lemma CarriesExactly(r: Reply, ps: seq<Peer>, ns: seq<Peer>)
    requires Carries(r, ps, ns)
    ensures FoundIn(r) == ps && NodesOf(r) == ns
  {
  }

  /** The peers known for `h` are those known before and `ps`; nothing changes for other hashes. */
  ghost predicate Learned(s: State, s': State, h: string, ps: seq<Peer>) {
    forall g, a :: KnownPeer(s', g, a) <==> KnownPeer(s, g, a) || (g == h && a in Addresses(ps))
  }

  lemma {:induction false} SearchGoesOn(s: State, draw: nat -> string, id: string, r: Reply, throws: bool)
    requires Inv(s, draw) && id in s.pending && s.pending[id].kind.GetPeers?
    ensures OnResponse(s, draw, id, r, throws).sent ==
            s.sent + if s.enabled && (!throws || FoundIn(r) == []) then Queries(NodesOf(r), s.pending[id].kind) else []
  {
    if !s.enabled {
      DisabledResponse(s, draw, id, r, throws);
    } else if !throws || FoundIn(r) == [] {
      AnswerContinuesSearch(s, draw, id, r, throws);
    }
  }

  lemma {:induction false} PeersLearned(s: State, draw: nat -> string, id: string, r: Reply, throws: bool)
    requires id in s.pending && s.pending[id].kind.GetPeers?
    ensures Learned(s, OnResponse(s, draw, id, r, throws), s.pending[id].kind.infoHash, FoundIn(r))
  {
    AnswerLearnsPeers(s, draw, id, r, throws);
  }

  /** What a get_peers reply does, apart from the sender's entry. */
  ghost predicate GetPeersEffect(s: State, s': State, id: string, ps: seq<Peer>, ns: seq<Peer>, throws: bool)
    requires id in s.pending && s.pending[id].kind.GetPeers?
  {
    var kind := s.pending[id].kind;
    && AnsweredOnce(s, s', id, s.pending[id].serial) && SameSetup(s, s')
    && Learned(s, s', kind.infoHash, ps)
    && s'.sent == s.sent + if s.enabled && (!throws || ps == []) then Queries(ns, kind) else []
  }

  lemma {:induction false} GetPeersReplied(s: State, draw: nat -> string, id: string, r: Reply, throws: bool)
    requires Inv(s, draw) && id in s.pending && s.pending[id].kind.GetPeers?
    ensures var s' := OnResponse(s, draw, id, r, throws);
            GetPeersEffect(s, s', id, FoundIn(r), NodesOf(r), throws) && s'.nodes == s.nodes
  {
    ResponseSpec(s, draw, id, r, throws);
    PeersLearned(s, draw, id, r, throws);
    SearchGoesOn(s, draw, id, r, throws);
  }

  lemma {:induction false} EffectIgnoresNodes(
    s: State, t: State, s': State, id: string, ps: seq<Peer>, ns: seq<Peer>, throws: bool)
    requires t == s.(nodes := t.nodes) && id in s.pending && s.pending[id].kind.GetPeers?
    requires GetPeersEffect(t, s', id, ps, ns, throws)
    ensures GetPeersEffect(s, s', id, ps, ns, throws)
  {
    assert forall g, a :: KnownPeer(t, g, a) <==> KnownPeer(s, g, a);
  }

  lemma {:induction false} ReceivedReply(
    s: State, draw: nat -> string, id: string, r: Reply, from: Peer, now: int, throws: bool)
    ensures Step(s, draw, Receive(Response(Some(id), Some(r)), from, now, throws)) ==
            OnResponse(Recorded(s, from, now), draw, id, r, throws)
  {
    StepReceives(s, draw, Response(Some(id), Some(r)), from, now, throws);
  }

  lemma {:induction false} StepReceives(
    s: State, draw: nat -> string, m: Message, from: Peer, now: int, throws: bool)
    ensures Step(s, draw, Receive(m, from, now, throws)) == OnReceive(s, draw, m, from, now, throws)
  {
  }

  /**
   A response to a pending get_peers query: it is answered, its peers and no others are added to its
   hash, the sender is recorded, and every node it names is asked for the same hash, unless the
   client is disabled or the callback throws over the peers.
   */
  lemma {:induction false} GetPeersAnswered(
    s: State, draw: nat -> string, id: string, r: Reply, ps: seq<Peer>, ns: seq<Peer>,
    from: Peer, now: int, throws: bool)
    requires Inv(s, draw) && Canonical(from) && Carries(r, ps, ns)
    requires id in s.pending && s.pending[id].kind.GetPeers?
    ensures var s' := Step(s, draw, Receive(Response(Some(id), Some(r)), from, now, throws));
            GetPeersEffect(s, s', id, ps, ns, throws) && Heard(s.nodes, s'.nodes, Address(from), now)
  {
    var t := Recorded(s, from, now);
    RecordedKeeps(s, draw, from, now);
    CarriesExactly(r, ps, ns);
    GetPeersReplied(t, draw, id, r, throws);
    ReceivedReply(s, draw, id, r, from, now, throws);
    EffectIgnoresNodes(s, t, OnResponse(t, draw, id, r, throws), id, ps, ns, throws);
  }

  /** In particular peers that some client packed for the wire arrive at the hash that was asked for. */
  lemma {:induction false} PeersArrive(
    s: State, draw: nat -> string, id: string, ps: seq<Peer>, from: Peer, now: int, throws: bool)
    requires Inv(s, draw) && Canonical(from) && AllCanonical(ps)
    requires id in s.pending && s.pending[id].kind.GetPeers?
    ensures var r := Reply(Some(CreateCompact(ps)), None);
            var s' := Step(s, draw, Receive(Response(Some(id), Some(r)), from, now, throws));
            && id !in s'.pending && s'.sent == s.sent
            && s.pending[id].serial in s'.settled && s'.settled[s.pending[id].serial] == Answered
            && forall i :: 0 <= i < |ps| ==> KnownPeer(s', s.pending[id].kind.infoHash, Address(ps[i]))
  {
    var r := Reply(Some(CreateCompact(ps)), None);
    CompactRoundTrip(ps);
    GetPeersAnswered(s, draw, id, r, ps, [], from, now, throws);
    StepKeeps(s, draw, Receive(Response(Some(id), Some(r)), from, now, throws));
    Arrived(s, Step(s, draw, Receive(Response(Some(id), Some(r)), from, now, throws)), draw, id, ps, throws);
  }

  lemma {:induction false} Arrived(
    s: State, s': State, draw: nat -> string, id: string, ps: seq<Peer>, throws: bool)
    requires id in s.pending && s.pending[id].kind.GetPeers?
    requires GetPeersEffect(s, s', id, ps, [], throws) && Ledger(s', draw)
    ensures id !in s'.pending && s'.sent == s.sent
    ensures forall i :: 0 <= i < |ps| ==> KnownPeer(s', s.pending[id].kind.infoHash, Address(ps[i]))
  {
    assert s'.sent == s.sent;
    assert forall i :: 0 <= i < |ps| ==> Addresses(ps)[i] == Address(ps[i]);
  }

  /** What a find_node reply does, apart from the sender's entry. */
  ghost predicate FindNodeEffect(s: State, s': State, id: string, ns: seq<Peer>)
    requires id in s.pending
  {
    && AnsweredOnce(s, s', id, s.pending[id].serial) && SameSetup(s, s') && s'.peers == s.peers
    && s'.sent == s.sent + if s.enabled && |s'.nodes| < 1000 then Queries(ns, FindNode) else []
  }

  lemma {:induction false} FindNodeReplied(s: State, draw: nat -> string, id: string, r: Reply, throws: bool)
    requires Inv(s, draw) && id in s.pending && s.pending[id].kind.FindNode?
    ensures var s' := OnResponse(s, draw, id, r, throws);
            FindNodeEffect(s, s', id, NodesOf(r)) && s'.nodes == s.nodes
  {
    ResponseSpec(s, draw, id, r, throws);
    SendAllSame(Settle(s, id, Answered), draw, NodesOf(r), FindNode);
    if s.enabled {
      AnswerExplores(s, draw, id, r, throws);
    } else {
      DisabledResponse(s, draw, id, r, throws);
    }
  }

  /**
   A response to a pending find_node query: it is answered, the sender is recorded and, while fewer
   than 1000 nodes are known, every node it names is asked in turn.
   */
  lemma {:induction false} FindNodeAnswered(
    s: State, draw: nat -> string, id: string, r: Reply, ps: seq<Peer>, ns: seq<Peer>,
    from: Peer, now: int, throws: bool)
    requires Inv(s, draw) && Canonical(from) && Carries(r, ps, ns)
    requires id in s.pending && s.pending[id].kind.FindNode?
    ensures var s' := Step(s, draw, Receive(Response(Some(id), Some(r)), from, now, throws));
            FindNodeEffect(s, s', id, ns) && Heard(s.nodes, s'.nodes, Address(from), now)
  {
    RecordedKeeps(s, draw, from, now);
    CarriesExactly(r, ps, ns);
    FindNodeReplied(Recorded(s, from, now), draw, id, r, throws);
    ReceivedReply(s, draw, id, r, from, now, throws);
  }

  /** The message is a response that answers a pending query. */
  predicate Answers(s: State, m: Message) {
    m.Response? && m.reply.Some? && m.transaction.Some? && m.transaction.value in s.pending
  }

  /** Every other message leaves everything alone but the sender's entry; one that cannot be read not even that. */
  lemma {:induction false} OtherMessages(
    s: State, draw: nat -> string, m: Message, from: Peer, now: int, throws: bool)
    requires Inv(s, draw) && Canonical(from) && !Answers(s, m)
    ensures var s' := Step(s, draw, Receive(m, from, now, throws));
            && s' == s.(nodes := s'.nodes)
            && if m.Undecoded? then s'.nodes == s.nodes else Heard(s.nodes, s'.nodes, Address(from), now)
  {
    StepReceives(s, draw, m, from, now, throws);
    NothingAnswered(s, draw, m, from, now, throws);
    RecordedKeeps(s, draw, from, now);
  }

  lemma {:induction false} NothingAnswered(
    s: State, draw: nat -> string, m: Message, from: Peer, now: int, throws: bool)
    requires !Answers(s, m)
    ensures OnReceive(s, draw, m, from, now, throws) == if m.Undecoded? then s else Recorded(s, from, now)
  {
  }

  // ---------- announcing ----------

  /** `h` becomes a target and every known node is asked for it, in order, at exactly its address. */
  ghost predicate AskedFor(s: State, s': State, h: string) {
    && s'.targets == s.targets + {h} && s'.nodes == s.nodes && s'.peers == s.peers
    && s'.enabled == s.enabled && s'.socket == s.socket
    && exists to :: Addresses(to) == Known(s.nodes) && s'.sent == s.sent + Queries(to, GetPeers(h))
  }

  lemma {:induction false} AskAll(s: State, draw: nat -> string, h: string)
    requires Safe(s) && s.enabled
    ensures AskedFor(
              s, SendAll(s.(targets := s.targets + {h}), draw, ParseAddresses(Known(s.nodes)), GetPeers(h)), h)
  {
    var to := ParseAddresses(Known(s.nodes));
    SendAllLog(s.(targets := s.targets + {h}), draw, to, GetPeers(h));
    PrintedBack(Known(s.nodes));
    assert Addresses(to) == Known(s.nodes);
  }

  lemma {:induction false} AnnounceAsks(s: State, draw: nat -> string, infoHash: InfoHash, b: seq<Byte>, h: string)
    requires Safe(s) && s.enabled && HashOf(infoHash) == Some(b) && h == Hex(b)
    ensures AskedFor(s, OnAnnounce(s, draw, infoHash), h)
  {
    AnnounceSends(s, draw, infoHash, b, h);
    AskAll(s, draw, h);
  }

  lemma {:induction false} AnnounceSends(s: State, draw: nat -> string, infoHash: InfoHash, b: seq<Byte>, h: string)
    requires s.enabled && HashOf(infoHash) == Some(b) && h == Hex(b)
    ensures OnAnnounce(s, draw, infoHash) ==
            SendAll(s.(targets := s.targets + {h}), draw, ParseAddresses(Known(s.nodes)), GetPeers(h))
  {
  }

  lemma {:induction false} StepAnnounces(s: State, draw: nat -> string, infoHash: InfoHash)
    ensures Step(s, draw, Announce(infoHash)) == OnAnnounce(s, draw, infoHash)
  {
  }

  /**
   Announcing an info hash, given as bytes or as hexadecimal text in either case, asks for these
   bytes; text after the last readable byte is ignored.
   */
  lemma {:induction false} AnnounceEither(s: State, draw: nat -> string, b: seq<Byte>, text: string, tail: string)
    requires Safe(s) && s.enabled && Lower(text) == Hex(b) && NoHexPair(tail)
    ensures AskedFor(s, Step(s, draw, Announce(HashBytes(b))), Hex(b))
    ensures text + tail != "" ==> AskedFor(s, Step(s, draw, Announce(HashText(text + tail))), Hex(b))
  {
    FromHexReads(text, b, tail);
    AnnounceAsks(s, draw, HashBytes(b), b, Hex(b));
    StepAnnounces(s, draw, HashBytes(b));
    if text + tail != "" {
      AnnounceAsks(s, draw, HashText(text + tail), b, Hex(b));
      StepAnnounces(s, draw, HashText(text + tail));
    }
  }

  /** Nothing happens for the empty text or while the client is disabled. */
  lemma {:induction false} AnnounceIgnored(s: State, draw: nat -> string, infoHash: InfoHash)
    requires !s.enabled || infoHash == HashText("")
    ensures Step(s, draw, Announce(infoHash)) == s
  {
    StepAnnounces(s, draw, infoHash);
  }

  // ---------- timers ----------

  /** A timer settles the query that waits under its id, whichever that is, and touches nothing else. */
  lemma {:induction false} TimerFires(s: State, draw: nat -> string, id: string)
    requires Inv(s, draw)
    ensures var s' := Step(s, draw, Timeout(id));
            && s' == s.(pending := s'.pending, settled := s'.settled) && s'.pending == s.pending - {id}
            && forall q: nat :: q < |s.sent| ==>
                                  if Waiting(s, draw, q) && draw(q) == id
                                  then q in s'.settled && s'.settled[q] == TimedOut
                                  else (q in s'.settled <==> q in s.settled)
  {
  }

  /** The timer of query `q` settles that query or nothing, as long as no other query drew its id. */
  lemma {:induction false} OwnTimer(s: State, draw: nat -> string, q: nat)
    requires Inv(s, draw) && q < |s.sent| && !Reused(draw, q, |s.sent|)
    requires forall q': nat :: q' < q ==> draw(q') != draw(q)
    ensures var s' := Step(s, draw, Timeout(draw(q)));
            if Waiting(s, draw, q) then s'.settled == s.settled[q := TimedOut] else s' == s
  {
    TimerSettlesItsOwn(s, draw, q);
  }

  lemma {:induction false} SendTwice(
    s: State, draw: nat -> string, to: seq<Peer>, more: seq<Peer>, both: bool, kind: Kind)
    requires s.enabled && s.socket
    ensures var s1 := SendAll(s, draw, to, kind);
            var s2 := if both then SendAll(s1, draw, more, kind) else s1;
            SameBut(s, s2) && s2.sent == s.sent + Queries(to, kind) + if both then Queries(more, kind) else []
  {
    SendAllLog(s, draw, to, kind);
    SendAllLog(SendAll(s, draw, to, kind), draw, more, kind);
  }

  /** The `i`-th address is that of the known node the `i`-th random number points at. */
  ghost predicate IsPicked(nodes: seq<Node>, picks: nat -> nat, to: seq<Peer>) {
    && |to| == (if |nodes| < 20 then |nodes| else 20)
    && forall i: nat :: i < |to| ==> |nodes| > 0 && Address(to[i]) == nodes[picks(i) % |nodes|].address
  }

  lemma {:induction false} PickOne(nodes: seq<Node>, random: nat)
    requires GoodAddresses(Known(nodes)) && nodes != []
    ensures Address(Pick(Known(nodes), random)) == nodes[random % |nodes|].address
  {
    var a := Known(nodes)[random % |nodes|];
    assert a in Known(nodes);
    StoredAddress(a);
  }

  lemma {:induction false} PickedAt(addresses: seq<string>, picks: nat -> nat, n: nat, i: nat)
    requires addresses != [] && i < n
    ensures Picked(addresses, picks, n)[i] == Pick(addresses, picks(i))
  {
    if i < n - 1 {
      PickedAt(addresses, picks, n - 1, i);
    }
  }

  lemma {:induction false} PickedExactly(nodes: seq<Node>, picks: nat -> nat)
    requires GoodAddresses(Known(nodes))
    ensures IsPicked(nodes, picks, Picked(Known(nodes), picks, Min(20, |nodes|)))
  {
    var to := Picked(Known(nodes), picks, Min(20, |nodes|));
    forall i: nat | i < |to| ensures Address(to[i]) == nodes[picks(i) % |nodes|].address {
      PickedAt(Known(nodes), picks, |to|, i);
      PickOne(nodes, picks(i));
    }
  }

  /** Randomly picked nodes were asked and, when fewer than twenty are known, the nodes `more` too. */
  ghost predicate Refreshed(s: State, s': State, picks: nat -> nat, more: seq<Peer>) {
    && SameBut(s, s')
    && exists to :: IsPicked(s.nodes, picks, to) &&
                    s'.sent == s.sent + Queries(to, FindNode) + if |s.nodes| < 20 then Queries(more, FindNode) else []
  }

  lemma {:induction false} AskPicked(
    s: State, draw: nat -> string, picks: nat -> nat, to: seq<Peer>, more: seq<Peer>, s': State)
    requires s.enabled && s.socket && IsPicked(s.nodes, picks, to)
    requires s' == if |s.nodes| < 20 then SendAll(SendAll(s, draw, to, FindNode), draw, more, FindNode)
                   else SendAll(s, draw, to, FindNode)
    ensures Refreshed(s, s', picks, more)
  {
    SendTwice(s, draw, to, more, |s.nodes| < 20, FindNode);
  }

  /** A refresh asks up to twenty randomly picked known nodes and, when fewer are known, the bootstrap nodes too. */
  lemma {:induction false} RefreshAsks(s: State, draw: nat -> string, picks: nat -> nat)
    requires Safe(s) && s.enabled
    ensures Refreshed(s, Step(s, draw, Refresh(picks)), picks, BOOTSTRAP)
  {
    StepRefreshes(s, draw, picks);
    RefreshPicks(s, draw, picks);
  }

  lemma {:induction false} StepRefreshes(s: State, draw: nat -> string, picks: nat -> nat)
    ensures Step(s, draw, Refresh(picks)) == OnRefresh(s, draw, picks)
  {
  }

  lemma {:induction false} RefreshPicks(s: State, draw: nat -> string, picks: nat -> nat)
    requires Safe(s) && s.enabled
    ensures Refreshed(s, OnRefresh(s, draw, picks), picks, BOOTSTRAP)
  {
    PickedExactly(s.nodes, picks);
    var to := Picked(Known(s.nodes), picks, Min(20, |s.nodes|));
    AskPicked(s, draw, picks, to, BOOTSTRAP, OnRefresh(s, draw, picks));
  }

  /** The cleanup of a running client keeps exactly the nodes heard of in the last three hours. */
  lemma {:induction false} CleanupKeepsRecent(s: State, draw: nat -> string, now: int, n: Node)
    ensures var s' := Step(s, draw, CleanupNodes(now));
            && s' == s.(nodes := s'.nodes)
            && (n in s'.nodes <==> n in s.nodes && (s.enabled ==> now - n.seen <= 10800000))
  {
    RecentExact(s.nodes, now, n);
  }

  // ---------- the socket ----------

  /** An error drops the socket and the flag, a close only the flag; both keep everything learned so far. */
  lemma Disconnects(s: State, draw: nat -> string)
    ensures var e := Step(s, draw, SocketError); !e.enabled && !e.socket && e == s.(enabled := false, socket := false)
    ensures var c := Step(s, draw, SocketClosed); !c.enabled && c.socket == s.socket && c == s.(enabled := false)
  {
  }

  /** Nothing happens on a connect while running or without a socket, nor when bound without a usable socket. */
  lemma ConnectionFails(s: State, draw: nat -> string, known: bool)
    ensures Step(s, draw, Connect(false)) == s
    ensures s.enabled ==> Step(s, draw, Connect(true)) == s
    ensures Step(s, draw, Bound(false)) == s
    ensures !s.socket ==> Step(s, draw, Bound(known)) == s
  {
  }

  /** Stopping a running client forgets everything and clears every query that waited. */
  lemma {:induction false} StopForgets(s: State, draw: nat -> string, q: nat)
    requires Inv(s, draw) && q < |s.sent|
    ensures var s' := Step(s, draw, Stop);
            if !s.enabled then s' == s
            else
              && s' == Initial.(sent := s.sent, settled := s'.settled)
              && q in s'.settled && (Waiting(s, draw, q) ==> s'.settled[q] == Cleared)
  {
    if s.enabled {
      StopSettlesAll(s, draw, q);
    }
  }
}
