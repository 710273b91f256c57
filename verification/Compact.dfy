/** Compact peer and node records (BEP 5, "Contact Encoding") and the sampling of known nodes. */
module Compact {
  import opened Text

  /** A peer as the client handles it; a port of None is NaN. */
  datatype Peer = Peer(host: string, port: Option<int>)

  /** An element of a `values` array; only buffers are looked at. */
  datatype Element = Buffer(bytes: seq<Byte>) | NotBuffer

  // ---------- addresses ----------

  function DottedQuad(a: Byte, b: Byte, c: Byte, d: Byte): string {
    Decimal(a) + "." + (Decimal(b) + "." + (Decimal(c) + "." + Decimal(d)))
  }

  /** A dotted-quad host and a port between 1 and 65535. */
  ghost predicate Canonical(p: Peer) {
    && (exists a: Byte, b: Byte, c: Byte, d: Byte :: p.host == DottedQuad(a, b, c, d))
    && p.port.Some? && 1 <= p.port.value <= 65535
  }

  /** `${host}:${port}`. */
  function Address(p: Peer): string { p.host + ":" + (if p.port.None? then "NaN" else PrintInt(p.port.value)) }

  function Addresses(peers: seq<Peer>): (a: seq<string>)
    ensures |a| == |peers| && forall i :: 0 <= i < |peers| ==> a[i] == Address(peers[i])
  {
    if peers == [] then [] else Addresses(peers[..|peers| - 1]) + [Address(peers[|peers| - 1])]
  }

  ghost predicate CanonicalAddress(a: string) { exists p: Peer :: Canonical(p) && a == Address(p) }

  /** `const [host, portStr] = a.split(':')` followed by `parseInt(portStr, 10)`. */
  function ParseAddress(a: string): Peer {
    var parts := Split(a, ":");
    Peer(parts[0], if |parts| > 1 then ParseInt(parts[1]) else None)
  }

  lemma SplitFour(p: string, q: string, r: string, s: string)
    requires '.' !in p && '.' !in q && '.' !in r && '.' !in s
    ensures Split(p + "." + (q + "." + (r + "." + s)), ".") == [p, q, r, s]
  {
    SplitTwo(r, s);
    SplitMore(q, r + "." + s, [r, s]);
    SplitMore(p, q + "." + (r + "." + s), [q, r, s]);
  }

  lemma SplitTwo(r: string, s: string)
    requires '.' !in r && '.' !in s
    ensures Split(r + "." + s, ".") == [r, s]
  {
    SplitOne(s, '.');
    SplitFirst(r, '.', s);
  }

  lemma SplitMore(p: string, rest: string, parts: seq<string>)
    requires '.' !in p && Split(rest, ".") == parts
    ensures Split(p + "." + rest, ".") == [p] + parts
  {
    SplitFirst(p, '.', rest);
  }

  lemma NoPunctuation(n: nat)
    ensures '.' !in Decimal(n) && ':' !in Decimal(n)
  {
  }

  lemma {:induction false} QuadParts(a: Byte, b: Byte, c: Byte, d: Byte)
    ensures Split(DottedQuad(a, b, c, d), ".") == [Decimal(a), Decimal(b), Decimal(c), Decimal(d)]
    ensures ':' !in DottedQuad(a, b, c, d)
  {
    NoPunctuation(a);
    NoPunctuation(b);
    NoPunctuation(c);
    NoPunctuation(d);
    SplitFour(Decimal(a), Decimal(b), Decimal(c), Decimal(d));
  }

  lemma AddressRoundTrip(p: Peer)
    requires Canonical(p)
    ensures ParseAddress(Address(p)) == p
  {
    var a: Byte, b: Byte, c: Byte, d: Byte :| p.host == DottedQuad(a, b, c, d);
    QuadParts(a, b, c, d);
    var port := Decimal(p.port.value);
    DecimalIsNumeral(p.port.value);
    ParseIntOfDecimal(p.port.value);
    SplitOne(port, ':');
    SplitFirst(p.host, ':', port);
  }

  // ---------- peers: six bytes ----------

  /** `buf.writeUInt8(parseInt(parts[i], 10), i)`: NaN is written as 0, out of range throws (None). */
  function OctetOf(parts: seq<string>, i: nat): Option<Byte> {
    var n := if i < |parts| then ParseInt(parts[i]) else None;
    if n.None? then Some(0) else if 0 <= n.value < 256 then Some(n.value) else None
  }

  /** The six bytes of a peer, or None when a write throws. */
  function Pack(p: Peer): (r: Option<seq<Byte>>)
    ensures r.Some? ==> |r.value| == 6
  {
    var parts := Split(p.host, ".");
    var a, b, c, d := OctetOf(parts, 0), OctetOf(parts, 1), OctetOf(parts, 2), OctetOf(parts, 3);
    var port := if p.port.None? then 0 else p.port.value;
    if a.None? || b.None? || c.None? || d.None? || !(0 <= port <= 65535) then None
    else Some([a.value, b.value, c.value, d.value, port / 256, port % 256])
  }

  /** `createCompactPeerInfo`: peers that throw become null and are filtered out. */
  function CreateCompact(peers: seq<Peer>): seq<Element> {
    if peers == [] then []
    else
      var packed := Pack(peers[0]);
      (if packed.None? then [] else [Buffer(packed.value)]) + CreateCompact(peers[1..])
  }

  /** One step of `parseCompactPeerInfo`. */
  function Unpack(e: Element): Option<Peer> {
    if e.NotBuffer? || |e.bytes| != 6 then None
    else
      var b := e.bytes;
      var port: int := 256 * (b[4] as int) + b[5];
      if port > 0 then Some(Peer(DottedQuad(b[0], b[1], b[2], b[3]), Some(port))) else None
  }

  /** `parseCompactPeerInfo`. */
  function ParseCompact(values: seq<Element>): seq<Peer> {
    if values == [] then []
    else
      var p := Unpack(values[0]);
      (if p.None? then [] else [p.value]) + ParseCompact(values[1..])
  }

  /** The `i`-th number of a host: 0 where there is none. */
  function HostNumber(host: string, i: nat): int {
    var parts := Split(host, ".");
    var n := if i < |parts| then ParseInt(parts[i]) else None;
    if n.None? then 0 else n.value
  }

  predicate Fits(n: int) { 0 <= n < 256 }

  lemma {:induction false} OctetWritten(host: string, i: nat)
    ensures OctetOf(Split(host, "."), i) == if Fits(HostNumber(host, i)) then Some(HostNumber(host, i)) else None
  {
  }

  /**
   The six bytes are the host's numbers and the port, higher byte first, with 0 for what is no
   number; the writing fails exactly when one of them does not fit.
   */
  lemma {:induction false} PackSpec(p: Peer)
    ensures var port := if p.port.None? then 0 else p.port.value;
            var a, b := HostNumber(p.host, 0), HostNumber(p.host, 1);
            var c, d := HostNumber(p.host, 2), HostNumber(p.host, 3);
            && (Pack(p).Some? <==> 0 <= port <= 65535 && Fits(a) && Fits(b) && Fits(c) && Fits(d))
            && (Pack(p).Some? ==>
                  && Pack(p).value[..4] == [a, b, c, d]
                  && 256 * (Pack(p).value[4] as int) + Pack(p).value[5] == port)
  {
    OctetWritten(p.host, 0);
    OctetWritten(p.host, 1);
    OctetWritten(p.host, 2);
    OctetWritten(p.host, 3);
  }

  lemma {:induction false} PackCanonical(p: Peer)
    requires Canonical(p)
    ensures Pack(p).Some? && Unpack(Buffer(Pack(p).value)) == Some(p)
  {
    var a: Byte, b: Byte, c: Byte, d: Byte :| p.host == DottedQuad(a, b, c, d);
    PackQuad(a, b, c, d, p.port.value);
    UnpackQuad(a, b, c, d, p.port.value);
  }

  lemma PackQuad(a: Byte, b: Byte, c: Byte, d: Byte, port: int)
    requires 1 <= port <= 65535
    ensures Pack(Peer(DottedQuad(a, b, c, d), Some(port))) == Some([a, b, c, d, port / 256, port % 256])
  {
    QuadOctets(a, b, c, d);
  }

  lemma UnpackQuad(a: Byte, b: Byte, c: Byte, d: Byte, port: int)
    requires 1 <= port <= 65535
    ensures Unpack(Buffer([a, b, c, d, port / 256, port % 256])) == Some(Peer(DottedQuad(a, b, c, d), Some(port)))
  {
  }

  lemma QuadOctets(a: Byte, b: Byte, c: Byte, d: Byte)
    ensures var parts := Split(DottedQuad(a, b, c, d), ".");
            && OctetOf(parts, 0) == Some(a) && OctetOf(parts, 1) == Some(b)
            && OctetOf(parts, 2) == Some(c) && OctetOf(parts, 3) == Some(d)
  {
    QuadParts(a, b, c, d);
    ParseIntOfDecimal(a);
    ParseIntOfDecimal(b);
    ParseIntOfDecimal(c);
    ParseIntOfDecimal(d);
  }

  lemma UnpackCanonical(e: Element)
    requires Unpack(e).Some?
    ensures Canonical(Unpack(e).value)
  {
  }

  /** Every peer parsed from a reply is canonical. */
  lemma {:induction false} ParsedPeersCanonical(values: seq<Element>, k: nat)
    requires k < |ParseCompact(values)|
    ensures Canonical(ParseCompact(values)[k])
  {
    var p, rest := Unpack(values[0]), ParseCompact(values[1..]);
    if p.None? {
      assert ParseCompact(values) == rest;
      ParsedPeersCanonical(values[1..], k);
    } else {
      assert ParseCompact(values) == [p.value] + rest;
      if k == 0 {
        UnpackCanonical(values[0]);
      } else {
        ParsedPeersCanonical(values[1..], k - 1);
      }
    }
  }

  lemma {:induction false} CanonicalPacked(peers: seq<Peer>)
    requires forall i :: 0 <= i < |peers| ==> Canonical(peers[i])
    ensures ParseCompact(CreateCompact(peers)) == peers && |CreateCompact(peers)| == |peers|
    ensures forall i :: 0 <= i < |peers| ==> CreateCompact(peers)[i].Buffer? && |CreateCompact(peers)[i].bytes| == 6
  {
    if peers != [] {
      PackCanonical(peers[0]);
      CanonicalPacked(peers[1..]);
      PackFirst(peers, Pack(peers[0]).value);
    }
  }

  lemma {:induction false} PackFirst(peers: seq<Peer>, w: seq<Byte>)
    requires peers != [] && Pack(peers[0]) == Some(w) && Unpack(Buffer(w)) == Some(peers[0])
    requires ParseCompact(CreateCompact(peers[1..])) == peers[1..]
    ensures CreateCompact(peers) == [Buffer(w)] + CreateCompact(peers[1..])
    ensures ParseCompact(CreateCompact(peers)) == peers
  {
    assert ([Buffer(w)] + CreateCompact(peers[1..]))[1..] == CreateCompact(peers[1..]);
    assert peers == [peers[0]] + peers[1..];
  }

  /** A list of peers survives packing and parsing, losing none, exactly when all of them are canonical. */
  lemma {:induction false} CompactRoundTrip(peers: seq<Peer>)
    ensures ParseCompact(CreateCompact(peers)) == peers <==> forall i :: 0 <= i < |peers| ==> Canonical(peers[i])
    ensures (forall i :: 0 <= i < |peers| ==> Canonical(peers[i])) ==>
              |CreateCompact(peers)| == |peers| &&
              forall i :: 0 <= i < |peers| ==> CreateCompact(peers)[i].Buffer? && |CreateCompact(peers)[i].bytes| == 6
  {
    var parsed := ParseCompact(CreateCompact(peers));
    if parsed == peers {
      forall i | 0 <= i < |peers| ensures Canonical(peers[i]) {
        ParsedPeersCanonical(CreateCompact(peers), i);
      }
    }
    if forall i :: 0 <= i < |peers| ==> Canonical(peers[i]) {
      CanonicalPacked(peers);
    }
  }

  // ---------- nodes: twenty-six bytes ----------

  datatype NodeInfo = NodeInfo(id: seq<Byte>, peer: Peer)

  /** One record: twenty bytes of id and six bytes of address; port 0 is skipped. */
  function ParseRecord(b: seq<Byte>): seq<NodeInfo>
    requires |b| == 26
  {
    var p := Unpack(Buffer(b[20..]));
    if p.None? then [] else [NodeInfo(b[..20], p.value)]
  }

  /** The whole 26-byte records of a buffer; a shorter remainder is ignored. */
  function Records(b: seq<Byte>): (rs: seq<seq<Byte>>)
    ensures forall i :: 0 <= i < |rs| ==> |rs[i]| == 26
  {
    if |b| < 26 then [] else [b[..26]] + Records(b[26..])
  }

  function ParseRecords(rs: seq<seq<Byte>>): seq<NodeInfo>
    requires forall i :: 0 <= i < |rs| ==> |rs[i]| == 26
  {
    if rs == [] then [] else ParseRecords(rs[..|rs| - 1]) + ParseRecord(rs[|rs| - 1])
  }

  /** `parseCompactNodeInfo` on a buffer. */
  function ParseNodes(b: seq<Byte>): seq<NodeInfo> { ParseRecords(Records(b)) }

  lemma {:induction false} ParsedRecordsCanonical(rs: seq<seq<Byte>>, k: nat)
    requires forall i :: 0 <= i < |rs| ==> |rs[i]| == 26
    requires k < |ParseRecords(rs)|
    ensures Canonical(ParseRecords(rs)[k].peer)
  {
    var front := rs[..|rs| - 1];
    if k < |ParseRecords(front)| {
      ParsedRecordsCanonical(front, k);
    } else {
      UnpackCanonical(Buffer(rs[|rs| - 1][20..]));
    }
  }

  /** Every node parsed from a reply is canonical. */
  lemma ParsedNodesCanonical(b: seq<Byte>, k: nat)
    requires k < |ParseNodes(b)|
    ensures Canonical(ParseNodes(b)[k].peer)
  {
    ParsedRecordsCanonical(Records(b), k);
  }

  lemma ParseOneRecord(id: seq<Byte>, w: seq<Byte>)
    requires |id| == 20 && |w| == 6 && Unpack(Buffer(w)).Some?
    ensures ParseRecord(id + w) == [NodeInfo(id, Unpack(Buffer(w)).value)]
  {
  }

  lemma {:induction false} RecordsAppend(b: seq<Byte>, n: nat, r: seq<Byte>)
    requires |b| == 26 * n && |r| == 26
    ensures Records(b + r) == Records(b) + [r]
  {
    var t := b + r;
    if n == 0 {
      assert t == r && r[..26] == r && r[26..] == [];
    } else {
      RecordsAppend(b[26..], n - 1, r);
      assert t[26..] == b[26..] + r;
      assert t[..26] == b[..26];
    }
  }

  /** A record appended to whole records adds its node at the end. */
  lemma ParseNodesAppend(b: seq<Byte>, n: nat, r: seq<Byte>)
    requires |b| == 26 * n && |r| == 26
    ensures ParseNodes(b + r) == ParseNodes(b) + ParseRecord(r)
  {
    RecordsAppend(b, n, r);
    assert (Records(b) + [r])[..|Records(b)|] == Records(b);
  }

  function Min(a: nat, b: nat): nat { if a < b then a else b }

  /**
   The sampling loop of `getRandomNodesCompact`. The bound is evaluated again in each round on the
   shrinking list, so at most half of the known nodes, rounded up, are ever taken.
   */
  method SampleNodes(known: seq<string>, count: nat) returns (sample: seq<string>)
    requires NoRepeats(known)
    ensures |sample| == Min(count, (|known| + 1) / 2)
    ensures NoRepeats(sample) && forall a :: a in sample ==> a in known
  {
    sample := [];
    var addrs := known;
    var i := 0;
    while i < Min(count, |addrs|)
      invariant i == |sample| && |addrs| == |known| - i
      invariant i <= Min(count, (|known| + 1) / 2)
      invariant NoRepeats(addrs) && NoRepeats(sample)
      invariant forall a :: a in addrs ==> a in known && a !in sample
      invariant forall a :: a in sample ==> a in known
      decreases |addrs|
    {
      var r :| 0 <= r < |addrs|;
      var a := addrs[r];
      forall b | b in addrs[..r] + addrs[r + 1..] ensures b in addrs && b != a {}
      assert a !in sample;
      addrs := addrs[..r] + addrs[r + 1..];
      sample := sample + [a];
      i := i + 1;
    }
  }

  /** Addresses as the client splits them. */
  function ParseAddresses(addrs: seq<string>): (peers: seq<Peer>)
    ensures |peers| == |addrs| && forall i :: 0 <= i < |addrs| ==> peers[i] == ParseAddress(addrs[i])
  {
    if addrs == [] then [] else [ParseAddress(addrs[0])] + ParseAddresses(addrs[1..])
  }

  ghost predicate AllCanonical(peers: seq<Peer>) { forall i :: 0 <= i < |peers| ==> Canonical(peers[i]) }

  function Peers(nodes: seq<NodeInfo>): (peers: seq<Peer>)
    ensures |peers| == |nodes| && forall i :: 0 <= i < |nodes| ==> peers[i] == nodes[i].peer
  {
    if nodes == [] then [] else [nodes[0].peer] + Peers(nodes[1..])
  }

  lemma {:induction false} AppendNode(b: seq<Byte>, n: nat, id: seq<Byte>, p: Peer)
    requires |b| == 26 * n && |id| == 20 && Canonical(p)
    ensures Pack(p).Some? && Peers(ParseNodes(b + (id + Pack(p).value))) == Peers(ParseNodes(b)) + [p]
  {
    PackCanonical(p);
    AppendRecord(b, n, id, p, Pack(p).value);
  }

  lemma AppendRecord(b: seq<Byte>, n: nat, id: seq<Byte>, p: Peer, w: seq<Byte>)
    requires |b| == 26 * n && |id| == 20 && |w| == 6 && Unpack(Buffer(w)) == Some(p)
    ensures Peers(ParseNodes(b + (id + w))) == Peers(ParseNodes(b)) + [p]
  {
    ParseOneRecord(id, w);
    ParseNodesAppend(b, n, id + w);
  }

  /** One round of the writing loop: a random id and six bytes; None when a write throws. */
  method WriteNode(buffer: seq<Byte>, ghost n: nat, p: Peer) returns (r: Option<seq<Byte>>)
    requires |buffer| == 26 * n
    ensures r.Some? ==> |r.value| == |buffer| + 26
    ensures Canonical(p) ==> r.Some? && Peers(ParseNodes(r.value)) == Peers(ParseNodes(buffer)) + [p]
  {
    assert |seq<Byte>(20, _ => 0)| == 20;
    var id: seq<Byte> :| |id| == 20;
    var record := Pack(p);
    if Canonical(p) {
      AppendNode(buffer, n, id, p);
    }
    r := if record.None? then None else Some(buffer + (id + record.value));
  }

  /** The writing loop of `getRandomNodesCompact`. */
  method PackNodes(nodes: seq<Peer>) returns (compact: Option<seq<Byte>>)
    ensures AllCanonical(nodes) ==> compact.Some? && Peers(ParseNodes(compact.value)) == nodes
    ensures compact.Some? ==> |compact.value| == 26 * |nodes|
  {
    compact := Some([]);
    for i := 0 to |nodes|
      invariant compact.Some? && |compact.value| == 26 * i
      invariant AllCanonical(nodes) ==> Peers(ParseNodes(compact.value)) == nodes[..i]
    {
      compact := WriteNode(compact.value, i, nodes[i]);
      if compact.None? {
        return;
      }
      assert nodes[..i + 1] == nodes[..i] + [nodes[i]];
    }
    assert nodes[..|nodes|] == nodes;
  }

  /**
   `getRandomNodesCompact`. None is the exception of a failing write, which cannot happen on
   canonical addresses: the records then parse back to exactly the sampled hosts and ports, in order.
   */
  method RandomNodesCompact(known: seq<string>, count: nat) returns (sample: seq<string>, compact: Option<seq<Byte>>)
    requires NoRepeats(known)
    ensures |sample| == Min(count, (|known| + 1) / 2)
    ensures NoRepeats(sample) && forall a :: a in sample ==> a in known
    ensures (forall a :: a in known ==> CanonicalAddress(a)) ==>
              compact.Some? && Peers(ParseNodes(compact.value)) == ParseAddresses(sample)
  {
    sample := SampleNodes(known, count);
    if forall a :: a in known ==> CanonicalAddress(a) {
      forall i | 0 <= i < |sample| ensures Canonical(ParseAddress(sample[i])) {
        assert sample[i] in known;
        var p :| Canonical(p) && sample[i] == Address(p);
        AddressRoundTrip(p);
      }
    }
    compact := PackNodes(ParseAddresses(sample));
  }
}
