/** The `DhtEnhancer` object: each handler updates the fields in place as its step function says. */
module DhtClient {
  import opened Text
  import opened Compact
  import opened Dht

  class DhtEnhancer {
    var enabled: bool
    var socket: bool
    var nodes: seq<Node>
    var pending: map<string, Request>
    var targets: set<string>
    var peers: map<string, seq<string>>

    /** The source of random transaction ids, and how many have been drawn. */
    const draw: nat -> string
    var drawn: nat

    ghost var sent: seq<Query>
    ghost var settled: map<nat, Outcome>

    ghost predicate Valid()
      reads this
    {
      drawn == |sent|
    }

    ghost function Now(): State
      reads this
    {
      State(enabled, socket, nodes, pending, targets, peers, sent, settled)
    }

    /** The object is in a state that the client's invariant allows. */
    ghost predicate Good()
      reads this
    {
      Valid() && Inv(Now(), draw)
    }

    constructor (draw: nat -> string)
      ensures Now() == Initial && this.draw == draw && Good()
      ensures !enabled && !socket && nodes == [] && pending == map[] && targets == {} && peers == map[]
    {
      this.draw := draw;
      enabled, socket, drawn := false, false, 0;
      nodes, pending, targets, peers := [], map[], {}, map[];
      sent, settled := [], map[];
    }

    method OnConnectCall(created: bool)
      requires Good()
      modifies this
      ensures Now() == Step(old(Now()), draw, Connect(created)) && Good()
    {
      StepKeeps(Now(), draw, Connect(created));
      if enabled { return; }
      if created {
        socket := true;
      }
    }

    method OnBindCallback(addressKnown: bool)
      requires Good()
      modifies this
      ensures Now() == Step(old(Now()), draw, Bound(addressKnown)) && Good()
    {
      StepKeeps(Now(), draw, Bound(addressKnown));
      if !socket || !addressKnown { return; }
      enabled := true;
      ConnectToBootstrapNodes();
    }

    method ConnectToBootstrapNodes()
      requires Valid()
      modifies this
      ensures Valid() && Now() == SendAll(old(Now()), draw, BOOTSTRAP, FindNode)
    {
      SendToEach(BOOTSTRAP, FindNode);
    }

    /** `sendFindNodeQuery` and `sendGetPeersQuery`, with the socket test of `sendMessage`. */
    method SendQuery(to: Peer, kind: Kind)
      requires Valid()
      modifies this
      ensures Valid() && Now() == Send(old(Now()), draw, to, kind)
    {
      if !enabled { return; }
      var id := draw(drawn);
      if id in pending {
        settled := settled[pending[id].serial := Overwritten];
      }
      pending := pending[id := Request(to, kind, drawn)];
      sent := sent + [Query(to, kind, socket)];
      drawn := drawn + 1;
    }

    method SendToEach(to: seq<Peer>, kind: Kind)
      requires Valid()
      modifies this
      ensures Valid() && Now() == SendAll(old(Now()), draw, to, kind)
    {
      for i := 0 to |to|
        invariant Valid() && Now() == SendAll(old(Now()), draw, to[..i], kind)
      {
        assert to[..i + 1][..i] == to[..i];
        SendQuery(to[i], kind);
      }
      assert to[..|to|] == to;
    }

    method AnnounceInfoHash(infoHash: InfoHash)
      requires Good()
      modifies this
      ensures Now() == Step(old(Now()), draw, Announce(infoHash)) && Good()
    {
      StepKeeps(Now(), draw, Announce(infoHash));
      var hash := HashOf(infoHash);
      if !enabled || hash.None? { return; }
      var h := Hex(hash.value);
      targets := targets + {h};
      AskKnownNodes(h, ParseAddresses(Known(nodes)));
    }

    /** The loop over the discovered nodes, with `all` their parsed addresses. */
    method AskKnownNodes(h: string, ghost all: seq<Peer>)
      requires Valid()
      requires |all| == |nodes| && forall i :: 0 <= i < |all| ==> all[i] == ParseAddress(nodes[i].address)
      modifies this
      ensures Valid() && Now() == SendAll(old(Now()), draw, all, GetPeers(h))
    {
      for i := 0 to |nodes|
        invariant Valid() && Now() == SendAll(old(Now()), draw, all[..i], GetPeers(h))
        invariant nodes == old(nodes)
      {
        assert all[..i + 1][..i] == all[..i];
        SendQuery(ParseAddress(nodes[i].address), GetPeers(h));
      }
      assert all[..|nodes|] == all;
    }

    method HandleMessage(m: Message, from: Peer, now: int, callbackThrows: bool)
      requires Good() && Canonical(from)
      modifies this
      ensures Now() == Step(old(Now()), draw, Receive(m, from, now, callbackThrows)) && Good()
    {
      StepKeeps(Now(), draw, Receive(m, from, now, callbackThrows));
      if m.Undecoded? { return; }
      nodes := Discover(nodes, Address(from), now);
      if m.Response? && m.reply.Some? && m.transaction.Some? {
        HandleResponse(m.transaction.value, m.reply.value, callbackThrows);
      }
    }

    method HandleResponse(id: string, r: Reply, callbackThrows: bool)
      requires Valid()
      modifies this
      ensures Valid() && Now() == OnResponse(old(Now()), draw, id, r, callbackThrows)
    {
      if id !in pending { return; }
      var request := pending[id];
      pending := pending - {id};
      settled := settled[request.serial := Answered];
      match request.kind
      case FindNode => ProcessFindNodeResponse(r);
      case GetPeers(h) => ProcessGetPeersResponse(r, h, callbackThrows);
    }

    method ProcessFindNodeResponse(r: Reply)
      requires Valid()
      modifies this
      ensures Valid() && Now() == OnFindNodeReply(old(Now()), draw, r)
    {
      var found := NodesOf(r);
      for i := 0 to |found|
        invariant Valid() && nodes == old(nodes)
        invariant Now() == if |nodes| < 1000 then SendAll(old(Now()), draw, found[..i], FindNode) else old(Now())
      {
        assert found[..i + 1][..i] == found[..i];
        if |nodes| < 1000 {
          SendQuery(found[i], FindNode);
        }
      }
      assert found[..|found|] == found;
    }

    method ProcessGetPeersResponse(r: Reply, h: string, callbackThrows: bool)
      requires Valid()
      modifies this
      ensures Valid() && Now() == OnGetPeersReply(old(Now()), draw, h, r, callbackThrows)
    {
      var found := FoundIn(r);
      if |found| > 0 {
        RecordPeers(h, found);
        if callbackThrows { return; }
      }
      ContinueWith(NodesOf(r), h);
    }

    /** The loop over the nodes a get_peers answer names. */
    method ContinueWith(next: seq<Peer>, h: string)
      requires Valid()
      modifies this
      ensures Valid()
      ensures Now() == if h !in old(targets) then old(Now())
                       else SendAll(old(Now()), draw, next, GetPeers(Hex(FromHex(h))))
    {
      var kind := GetPeers(Hex(FromHex(h)));
      for i := 0 to |next|
        invariant Valid() && targets == old(targets)
        invariant Now() == if h in targets then SendAll(old(Now()), draw, next[..i], kind) else old(Now())
      {
        assert next[..i + 1][..i] == next[..i];
        if h in targets {
          SendQuery(next[i], kind);
        }
      }
      assert next[..|next|] == next;
    }

    method RecordPeers(h: string, found: seq<Peer>)
      requires Valid() && found != []
      modifies this`peers
      ensures Valid() && Now() == Record(old(Now()), h, found)
    {
      var known := if h in peers then peers[h] else [];
      ghost var all := Addresses(found);
      for i := 0 to |found|
        invariant peers == old(peers)
        invariant known == AddAll(if h in peers then peers[h] else [], all[..i])
      {
        assert all[..i + 1][..i] == all[..i];
        var a := Address(found[i]);
        if a !in known {
          known := known + [a];
        }
      }
      assert all[..|found|] == all;
      peers := peers[h := known];
    }

    method OnTimer(id: string)
      requires Good()
      modifies this
      ensures Now() == Step(old(Now()), draw, Timeout(id)) && Good()
    {
      StepKeeps(Now(), draw, Timeout(id));
      if id in pending {
        settled := settled[pending[id].serial := TimedOut];
        pending := pending - {id};
      }
    }

    method RefreshConnections(picks: nat -> nat)
      requires Good()
      modifies this
      ensures Now() == Step(old(Now()), draw, Refresh(picks)) && Good()
    {
      StepKeeps(Now(), draw, Refresh(picks));
      if !enabled { return; }
      SendToPicked(Known(nodes), picks, Min(20, |nodes|));
      if |nodes| < 20 {
        ConnectToBootstrapNodes();
      }
    }

    method SendToPicked(addresses: seq<string>, picks: nat -> nat, count: nat)
      requires Valid() && (addresses != [] || count == 0)
      modifies this
      ensures Valid() && Now() == SendAll(old(Now()), draw, Picked(addresses, picks, count), FindNode)
      ensures nodes == old(nodes)
    {
      for i := 0 to count
        invariant nodes == old(nodes)
        invariant Valid() && Now() == SendAll(old(Now()), draw, Picked(addresses, picks, i), FindNode)
      {
        var to := Pick(addresses, picks(i));
        ghost var all := Picked(addresses, picks, i + 1);
        assert all[..i] == Picked(addresses, picks, i) && all[i] == to;
        SendQuery(to, FindNode);
      }
    }

    method CleanupOldNodes(now: int)
      requires Good()
      modifies this
      ensures Now() == Step(old(Now()), draw, CleanupNodes(now)) && Good()
    {
      StepKeeps(Now(), draw, CleanupNodes(now));
      if !enabled { return; }
      var kept := [];
      for i := 0 to |nodes|
        invariant nodes == old(nodes) && kept == Recent(nodes[..i], now)
      {
        assert nodes[..i + 1][..i] == nodes[..i];
        if now - nodes[i].seen <= 3 * 60 * 60 * 1000 {
          kept := kept + [nodes[i]];
        }
      }
      assert nodes[..|nodes|] == nodes;
      nodes := kept;
    }

    /** `reconnect`; the delayed `connect` is a later event. */
    method Reconnect()
      requires Good()
      modifies this
      ensures Now() == Step(old(Now()), draw, SocketError) && Good()
    {
      StepKeeps(Now(), draw, SocketError);
      socket := false;
      enabled := false;
    }

    method OnClose()
      requires Good()
      modifies this
      ensures Now() == Step(old(Now()), draw, SocketClosed) && Good()
    {
      StepKeeps(Now(), draw, SocketClosed);
      enabled := false;
    }

    method StopClient()
      requires Good()
      modifies this
      ensures Now() == Step(old(Now()), draw, Stop) && Good()
    {
      StepKeeps(Now(), draw, Stop);
      if enabled {
        ForgetAll();
      }
    }

    /** What `stop` does to a running client. */
    method ForgetAll()
      requires Valid() && enabled
      modifies this
      ensures Valid() && Now() == OnStop(old(Now()))
    {
      enabled := false;
      socket := false;
      settled := settled + map q | q in Serials(pending) :: Cleared;
      nodes, pending, targets, peers := [], map[], {}, map[];
    }

    /**
     `respondToGetPeers`. With known peers: one six-byte entry each, which parse back to the stored
     addresses. Otherwise: a sample of at most 20 distinct known nodes.
     */
    method RespondToGetPeers(h: string) returns (values: seq<Element>, compact: Option<seq<Byte>>)
      requires Good()
      ensures h in peers ==> |values| == |peers[h]| && Addresses(ParseCompact(values)) == peers[h] && compact.None?
      ensures h !in peers ==>
                && values == [] && compact.Some?
                && IsSample(Peers(ParseNodes(compact.value)), Known(nodes), 20)
    {
      values, compact := [], None;
      if h in peers && |peers[h]| > 0 {
        values := CreateCompact(ParseAddresses(peers[h]));
        ValuesReadBack(peers[h]);
      } else {
        var sample;
        sample, compact := RandomNodesCompact(Known(nodes), 20);
        SampleReadsBack(sample, Known(nodes), 20);
      }
    }
  }

  lemma ValuesReadBack(known: seq<string>)
    requires GoodAddresses(known)
    ensures var values := CreateCompact(ParseAddresses(known));
            |values| == |known| && Addresses(ParseCompact(values)) == known
  {
    PackedAddresses(known);
    PrintedBack(known);
  }

  lemma SampleReadsBack(sample: seq<string>, known: seq<string>, count: nat)
    requires GoodAddresses(known) && NoRepeats(sample) && forall a :: a in sample ==> a in known
    requires |sample| == Min(count, (|known| + 1) / 2)
    ensures IsSample(ParseAddresses(sample), known, count)
  {
    PrintedBack(sample);
  }

  /** Distinct members of `known`: as many as asked for, or half of them, rounded up. */
  ghost predicate IsSample(sample: seq<Peer>, known: seq<string>, count: nat) {
    var a := Addresses(sample);
    |a| == Min(count, (|known| + 1) / 2) && NoRepeats(a) && forall x :: x in a ==> x in known
  }
}
