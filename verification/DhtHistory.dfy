/** What the history of a run says: why every query ended as it did, and where queries went. */
module DhtHistory {
  import opened Text
  import opened Compact
  import opened Dht

  // ---------- why a query ended ----------

  /** A query registered at a number from `lo` to `hi` drew the id of the earlier query `q`. */
  ghost predicate ReusedBetween(draw: nat -> string, q: nat, lo: nat, hi: nat) {
    exists q': nat :: lo <= q' < hi && q < q' && draw(q') == draw(q)
  }

  /** Every query settled between the two states was overwritten by one registered between them. */
  ghost predicate OnlyOverwrites(s: State, s': State, draw: nat -> string) {
    forall q :: q in s'.settled && q !in s.settled ==>
                  s'.settled[q] == Overwritten && ReusedBetween(draw, q, |s.sent|, |s'.sent|)
  }

  lemma SendOverwrites(s: State, draw: nat -> string, to: Peer, kind: Kind)
    requires Ledger(s, draw)
    ensures OnlyOverwrites(s, Send(s, draw, to, kind), draw)
  {
    var n := |s.sent|;
    if s.enabled && draw(n) in s.pending {
      assert ReusedBetween(draw, s.pending[draw(n)].serial, n, n + 1);
    }
  }

  lemma OverwritesCompose(s: State, t: State, u: State, draw: nat -> string)
    requires OnlyOverwrites(s, t, draw) && OnlyOverwrites(t, u, draw) && Extends(s, t) && Extends(t, u)
    ensures OnlyOverwrites(s, u, draw)
  {
  }

  lemma {:induction false} SendAllOverwrites(s: State, draw: nat -> string, to: seq<Peer>, kind: Kind)
    requires Inv(s, draw) && (kind.GetPeers? ==> kind.infoHash in s.targets)
    ensures OnlyOverwrites(s, SendAll(s, draw, to, kind), draw)
  {
    if to != [] {
      var front, last := to[..|to| - 1], to[|to| - 1];
      var t := SendAll(s, draw, front, kind);
      SendAllOverwrites(s, draw, front, kind);
      SendAllKeeps(s, draw, front, kind);
      SendOverwrites(t, draw, last, kind);
      SendKeeps(t, draw, last, kind);
      OverwritesCompose(s, t, Send(t, draw, last, kind), draw);
    }
  }

  /** Only the query waiting under `id` was settled with `o`; all others were overwritten. */
  ghost predicate OnlySettles(s: State, s': State, draw: nat -> string, id: string, o: Outcome) {
    forall q :: q in s'.settled && q !in s.settled ==>
                  || (s'.settled[q] == o && draw(q) == id && Waiting(s, draw, q))
                  || (s'.settled[q] == Overwritten && ReusedBetween(draw, q, |s.sent|, |s'.sent|))
  }

  lemma SettleThenSend(s: State, t: State, u: State, draw: nat -> string, id: string)
    requires Inv(s, draw) && id in s.pending
    requires t.sent == s.sent && t.settled == s.settled[s.pending[id].serial := Answered]
    requires Extends(t, u) && OnlyOverwrites(t, u, draw)
    ensures OnlySettles(s, u, draw, id, Answered)
  {
  }

  lemma GetPeersOverwrites(s: State, draw: nat -> string, h: string, r: Reply, throws: bool)
    requires Inv(s, draw) && h in s.targets
    ensures OnlyOverwrites(s, OnGetPeersReply(s, draw, h, r, throws), draw)
  {
    RecordKeeps(s, draw, h, r);
    var b: seq<Byte> :| h == Hex(b);
    HexRoundTrip(b);
    SendAllOverwrites(Record(s, h, FoundIn(r)), draw, NodesOf(r), GetPeers(h));
  }

  lemma {:induction false} ResponseSettles(s: State, draw: nat -> string, id: string, r: Reply, throws: bool)
    requires Inv(s, draw)
    ensures OnlySettles(s, OnResponse(s, draw, id, r, throws), draw, id, Answered)
  {
    if id in s.pending {
      var a, u := Settle(s, id, Answered), OnResponse(s, draw, id, r, throws);
      SettleKeeps(s, draw, id, Answered);
      match s.pending[id].kind
      case FindNode =>
        SendAllOverwrites(a, draw, NodesOf(r), FindNode);
        SendAllKeeps(a, draw, NodesOf(r), FindNode);
        SettleThenSend(s, a, u, draw, id);
      case GetPeers(h) =>
        GetPeersOverwrites(a, draw, h, r, throws);
        GetPeersReplyKeeps(a, draw, h, r, throws);
        SettleThenSend(s, a, u, draw, id);
    }
  }

  /** The step from `s` to `s'` is one that can end query `q` as it did. */
  ghost predicate Explains(s: State, s': State, draw: nat -> string, e: Event, q: nat)
    requires q in s'.settled
  {
    match s'.settled[q]
    case Answered =>
      && Waiting(s, draw, q)
      && e.Receive? && e.message.Response? && e.message.reply.Some? && e.message.transaction == Some(draw(q))
    case TimedOut => Waiting(s, draw, q) && e.Timeout? && e.transaction == draw(q)
    case Cleared => Waiting(s, draw, q) && e.Stop?
    case Overwritten => ReusedBetween(draw, q, |s.sent|, |s'.sent|)
  }

  lemma RefreshOverwrites(s: State, draw: nat -> string, picks: nat -> nat)
    requires Inv(s, draw)
    ensures OnlyOverwrites(s, OnRefresh(s, draw, picks), draw)
  {
    if s.enabled {
      var to := Picked(Known(s.nodes), picks, Min(20, |s.nodes|));
      var t := SendAll(s, draw, to, FindNode);
      SendAllOverwrites(s, draw, to, FindNode);
      SendAllKeeps(s, draw, to, FindNode);
      if |s.nodes| < 20 {
        SendAllOverwrites(t, draw, BOOTSTRAP, FindNode);
        SendAllKeeps(t, draw, BOOTSTRAP, FindNode);
        OverwritesCompose(s, t, SendAll(t, draw, BOOTSTRAP, FindNode), draw);
      }
    }
  }

  lemma AnnounceOverwrites(s: State, draw: nat -> string, infoHash: InfoHash)
    requires Inv(s, draw)
    ensures OnlyOverwrites(s, OnAnnounce(s, draw, infoHash), draw)
  {
    var hash := HashOf(infoHash);
    if s.enabled && hash.Some? {
      var h := Hex(hash.value);
      var t := s.(targets := s.targets + {h});
      assert Ledger(t, draw);
      SendAllOverwrites(t, draw, ParseAddresses(Known(s.nodes)), GetPeers(h));
    }
  }

  lemma BoundOverwrites(s: State, draw: nat -> string, addressKnown: bool)
    requires Inv(s, draw)
    ensures OnlyOverwrites(s, OnBound(s, draw, addressKnown), draw)
  {
    if s.socket {
      var t := s.(enabled := true);
      OutsideLedger(s, draw, t);
      SendAllOverwrites(t, draw, BOOTSTRAP, FindNode);
    }
  }

  lemma ReceiveSettles(s: State, draw: nat -> string, e: Event)
    requires Inv(s, draw) && e.Receive? && Possible(e)
    ensures var s' := Step(s, draw, e);
            forall q :: q in s'.settled && q !in s.settled ==> Explains(s, s', draw, e, q)
  {
    var m := e.message;
    DiscoverKeeps(s.nodes, e.from, e.now);
    var t := s.(nodes := Discover(s.nodes, Address(e.from), e.now));
    OutsideLedger(s, draw, t);
    if m.Response? && m.reply.Some? && m.transaction.Some? {
      ResponseSettles(t, draw, m.transaction.value, m.reply.value, e.callbackThrows);
    }
  }

  /** Every outcome a step adds is explained by that step. */
  lemma StepExplains(s: State, draw: nat -> string, e: Event)
    requires Inv(s, draw) && Possible(e)
    ensures var s' := Step(s, draw, e);
            forall q :: q in s'.settled && q !in s.settled ==> Explains(s, s', draw, e, q)
  {
    match e
    case Connect(_) =>
    case SocketError =>
    case SocketClosed =>
    case Bound(known) => BoundOverwrites(s, draw, known);
    case Announce(h) => AnnounceOverwrites(s, draw, h);
    case Receive(_, _, _, _) => ReceiveSettles(s, draw, e);
    case Timeout(_) =>
    case Refresh(picks) => RefreshOverwrites(s, draw, picks);
    case CleanupNodes(_) =>
    case Stop =>
  }

  /** The `i`-th event of the run settled query `q`, and explains how. */
  ghost predicate SettledBy(draw: nat -> string, es: seq<Event>, i: nat, q: nat)
    requires i < |es|
  {
    var s, s' := Run(draw, es[..i]), Run(draw, es[..i + 1]);
    q !in s.settled && q in s'.settled && Explains(s, s', draw, es[i], q)
  }

  /**
   Every outcome in every run has its cause at exactly one event: an answer a response with that
   query's transaction id, a timeout a timer with that id, a clearing a stop, an overwriting a later
   query with the same id.
   */
  lemma {:induction false} OutcomesAreExplained(draw: nat -> string, es: seq<Event>, q: nat) returns (i: nat)
    requires forall j :: 0 <= j < |es| ==> Possible(es[j])
    requires q in Run(draw, es).settled
    ensures i < |es| && SettledBy(draw, es, i, q)
    ensures Run(draw, es[..i + 1]).settled[q] == Run(draw, es).settled[q]
    ensures forall j: nat :: j < |es| && SettledBy(draw, es, j, q) ==> j == i
  {
    i := FindCause(draw, es, q);
    OutcomesAreFinal(draw, es, i + 1);
    forall j: nat | j < |es| && SettledBy(draw, es, j, q) ensures j == i {
      if j < i {
        Persists(draw, es, j + 1, i);
      } else if i < j {
        Persists(draw, es, i + 1, j);
      }
    }
  }

  lemma {:induction false} FindCause(draw: nat -> string, es: seq<Event>, q: nat) returns (i: nat)
    requires forall j :: 0 <= j < |es| ==> Possible(es[j])
    requires q in Run(draw, es).settled
    ensures i < |es| && SettledBy(draw, es, i, q)
  {
    var n := |es| - 1;
    var front := es[..n];
    assert es[..n + 1] == es;
    if q in Run(draw, front).settled {
      i := FindCause(draw, front, q);
      assert front[..i] == es[..i] && front[..i + 1] == es[..i + 1];
    } else {
      RunSafe(draw, front);
      StepExplains(Run(draw, front), draw, es[n]);
      i := n;
    }
  }

  lemma Persists(draw: nat -> string, es: seq<Event>, j: nat, i: nat)
    requires forall k :: 0 <= k < |es| ==> Possible(es[k])
    requires j <= i <= |es|
    ensures Extends(Run(draw, es[..j]), Run(draw, es[..i]))
  {
    assert es[..i][..j] == es[..j];
    OutcomesAreFinal(draw, es[..i], j);
  }

  // ---------- where queries go ----------

  ghost predicate Destination(p: Peer) { p in BOOTSTRAP || Canonical(p) }

  ghost predicate AllDestinations(to: seq<Peer>) { forall i :: 0 <= i < |to| ==> Destination(to[i]) }

  /** Every query went to a bootstrap node or a canonical address. */
  ghost predicate Addressed(s: State) { forall q :: 0 <= q < |s.sent| ==> Destination(s.sent[q].to) }

  lemma {:induction false} SendAllAddressed(s: State, draw: nat -> string, to: seq<Peer>, kind: Kind)
    requires Addressed(s) && AllDestinations(to)
    ensures Addressed(SendAll(s, draw, to, kind))
  {
    if to != [] {
      SendAllAddressed(s, draw, to[..|to| - 1], kind);
    }
  }

  lemma KnownAreDestinations(addresses: seq<string>)
    requires GoodAddresses(addresses)
    ensures AllDestinations(ParseAddresses(addresses))
  {
    forall i | 0 <= i < |addresses| ensures Destination(ParseAddresses(addresses)[i]) {
      StoredAddress(addresses[i]);
    }
  }

  lemma {:induction false} PickedAreDestinations(addresses: seq<string>, picks: nat -> nat, n: nat)
    requires GoodAddresses(addresses) && (addresses != [] || n == 0)
    ensures AllDestinations(Picked(addresses, picks, n))
  {
    if n > 0 {
      PickedAreDestinations(addresses, picks, n - 1);
      var a := addresses[picks(n - 1) % |addresses|];
      assert a in addresses;
      StoredAddress(a);
    }
  }

  lemma NamedAreDestinations(r: Reply)
    ensures AllDestinations(NodesOf(r))
  {
    forall i | 0 <= i < |NodesOf(r)| ensures Destination(NodesOf(r)[i]) {
      ParsedNodesCanonical(r.nodes.value, i);
    }
  }

  lemma BootstrapAreDestinations()
    ensures AllDestinations(BOOTSTRAP)
  {
  }

  lemma ResponseAddressed(s: State, draw: nat -> string, id: string, r: Reply, throws: bool)
    requires Addressed(s)
    ensures Addressed(OnResponse(s, draw, id, r, throws))
  {
    if id in s.pending {
      NamedAreDestinations(r);
      var a := Settle(s, id, Answered);
      match s.pending[id].kind
      case FindNode => SendAllAddressed(a, draw, NodesOf(r), FindNode);
      case GetPeers(h) =>
        SendAllAddressed(Record(a, h, FoundIn(r)), draw, NodesOf(r), GetPeers(Hex(FromHex(h))));
    }
  }

  lemma RefreshAddressed(s: State, draw: nat -> string, picks: nat -> nat)
    requires Safe(s) && Addressed(s)
    ensures Addressed(OnRefresh(s, draw, picks))
  {
    if s.enabled {
      var to := Picked(Known(s.nodes), picks, Min(20, |s.nodes|));
      PickedAreDestinations(Known(s.nodes), picks, Min(20, |s.nodes|));
      SendAllAddressed(s, draw, to, FindNode);
      BootstrapAreDestinations();
      SendAllAddressed(SendAll(s, draw, to, FindNode), draw, BOOTSTRAP, FindNode);
    }
  }

  lemma AnnounceAddressed(s: State, draw: nat -> string, infoHash: InfoHash)
    requires Safe(s) && Addressed(s)
    ensures Addressed(OnAnnounce(s, draw, infoHash))
  {
    var hash := HashOf(infoHash);
    if s.enabled && hash.Some? {
      var h := Hex(hash.value);
      KnownAreDestinations(Known(s.nodes));
      SendAllAddressed(s.(targets := s.targets + {h}), draw, ParseAddresses(Known(s.nodes)), GetPeers(h));
    }
  }

  lemma BoundAddressed(s: State, draw: nat -> string, addressKnown: bool)
    requires Addressed(s)
    ensures Addressed(OnBound(s, draw, addressKnown))
  {
    BootstrapAreDestinations();
    SendAllAddressed(s.(enabled := true), draw, BOOTSTRAP, FindNode);
  }

  lemma ReceiveAddressed(s: State, draw: nat -> string, m: Message, from: Peer, now: int, throws: bool)
    requires Addressed(s)
    ensures Addressed(OnReceive(s, draw, m, from, now, throws))
  {
    if m.Response? && m.reply.Some? && m.transaction.Some? {
      var t := s.(nodes := Discover(s.nodes, Address(from), now));
      ResponseAddressed(t, draw, m.transaction.value, m.reply.value, throws);
    }
  }

  lemma StepAddressed(s: State, draw: nat -> string, e: Event)
    requires Safe(s) && Addressed(s)
    ensures Addressed(Step(s, draw, e))
  {
    match e
    case Connect(_) =>
    case SocketError =>
    case SocketClosed =>
    case Bound(known) => BoundAddressed(s, draw, known);
    case Announce(h) => AnnounceAddressed(s, draw, h);
    case Receive(m, from, now, throws) => ReceiveAddressed(s, draw, m, from, now, throws);
    case Timeout(_) =>
    case Refresh(picks) => RefreshAddressed(s, draw, picks);
    case CleanupNodes(_) =>
    case Stop =>
  }

  /** In every run all queries go to bootstrap nodes or canonical addresses, whatever the messages hold. */
  lemma {:induction false} RunAddressed(draw: nat -> string, es: seq<Event>)
    requires forall i :: 0 <= i < |es| ==> Possible(es[i])
    ensures Addressed(Run(draw, es))
  {
    if es != [] {
      var front := es[..|es| - 1];
      RunAddressed(draw, front);
      RunSafe(draw, front);
      StepAddressed(Run(draw, front), draw, es[|es| - 1]);
    }
  }
}
