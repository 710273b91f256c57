/** Canonical magnet links and percent-encoding (section 2.1 of RFC 3986). */
module Magnet {
  import opened Text

  const PREFIX := "magnet:?xt=urn:btih:"

  // ---------- percent-encoding ----------

  predicate Unreserved(c: char) {
    'A' <= c <= 'Z' || 'a' <= c <= 'z' || '0' <= c <= '9' || c in "-_.!~*'()"
  }

  function UpperHex(d: nat): (c: char)
    requires d < 16
    ensures HexValue(c) == Some(d) && ('0' <= c <= '9' || 'A' <= c <= 'F')
  {
    if d < 10 then ('0' as int + d) as char else ('A' as int + d - 10) as char
  }

  function Percent(bs: seq<Byte>): string {
    if bs == [] then "" else PercentByte(bs[0]) + Percent(bs[1..])
  }

  function EncodeChar(c: char): string { if Unreserved(c) then [c] else Percent(Utf8(c)) }

  /** `encodeURIComponent`. */
  function EncodeComponent(s: string): string {
    if s == "" then "" else EncodeChar(s[0]) + EncodeComponent(s[1..])
  }

  // ---------- a specification decoder ----------

  /** The next `k` percent-encoded bytes. */
  function ReadBytes(s: string, k: nat): Option<seq<Byte>> {
    if k == 0 then Some([])
    else if |s| < 3 || s[0] != '%' || HexValue(s[1]).None? || HexValue(s[2]).None? then None
    else
      match ReadBytes(s[3..], k - 1)
      case None => None
      case Some(bs) => Some([16 * HexValue(s[1]).value + HexValue(s[2]).value] + bs)
  }

  /** How many bytes a UTF-8 sequence with this first byte has; 0 if it starts none. */
  function Width(b: Byte): nat {
    if b < 0x80 then 1
    else if b < 0xC0 then 0
    else if b < 0xE0 then 2
    else if b < 0xF0 then 3
    else if b < 0xF8 then 4
    else 0
  }

  function Scalar(bs: seq<int>): int {
    if |bs| == 1 then bs[0]
    else if |bs| == 2 then 64 * (bs[0] - 0xC0) + (bs[1] - 0x80)
    else if |bs| == 3 then 4096 * (bs[0] - 0xE0) + 64 * (bs[1] - 0x80) + (bs[2] - 0x80)
    else if |bs| == 4 then 262144 * (bs[0] - 0xF0) + 4096 * (bs[1] - 0x80) + 64 * (bs[2] - 0x80) + (bs[3] - 0x80)
    else -1
  }

  predicate IsScalar(n: int) { 0 <= n < 0xD800 || 0xE000 <= n < 0x11_0000 }

  /** The bytes are the UTF-8 form of a character: no overlong form and no stray continuation byte. */
  predicate WellFormed(bs: seq<Byte>) { IsScalar(Scalar(bs)) && Utf8(Scalar(bs) as char) == bs }

  /** `decodeURIComponent`; None when it throws. */
  function DecodeComponent(s: string): Option<string> {
    if s == "" then Some("")
    else if s[0] != '%' then Prepend(s[0], DecodeComponent(s[1..]))
    else
      var first := ReadBytes(s, 1);
      if first.None? then None
      else
        var k := Width(first.value[0]);
        var bs := ReadBytes(s, k);
        if k == 0 || 3 * k > |s| || bs.None? || !WellFormed(bs.value) then None
        else Prepend(Scalar(bs.value) as char, DecodeComponent(s[3 * k..]))
  }

  function Prepend(c: char, r: Option<string>): Option<string> {
    if r.None? then None else Some([c] + r.value)
  }

  function PercentByte(b: Byte): string { ['%', UpperHex(b / 16), UpperHex(b % 16)] }

  lemma Regroup(a: string, b: string, c: string)
    ensures (a + b) + c == a + (b + c)
  {
  }

  lemma ReadOneByte(b: Byte, rest: string, k: nat)
    requires k > 0 && ReadBytes(rest, k - 1).Some?
    ensures ReadBytes(PercentByte(b) + rest, k) == Some([b] + ReadBytes(rest, k - 1).value)
  {
  }

  lemma {:induction false} ReadPercent(bs: seq<Byte>, rest: string, k: nat)
    requires k <= |bs|
    ensures |Percent(bs)| == 3 * |bs| && ReadBytes(Percent(bs) + rest, k) == Some(bs[..k])
  {
    if bs != [] {
      ReadPercent(bs[1..], rest, if k == 0 then 0 else k - 1);
      if k > 0 {
        ReadOneByte(bs[0], Percent(bs[1..]) + rest, k);
        Regroup(PercentByte(bs[0]), Percent(bs[1..]), rest);
        assert bs[..k] == [bs[0]] + bs[1..][..k - 1];
      }
    }
  }

  lemma SixBits(n: nat)
    ensures n == 64 * (n / 64) + n % 64
    ensures n / 64 == 64 * (n / 4096) + n / 64 % 64
    ensures n / 4096 == 64 * (n / 262144) + n / 4096 % 64
  {
  }

  lemma {:induction false} Utf8Scalar(c: char)
    ensures var bs := Utf8(c); bs != [] && Width(bs[0]) == |bs| && Scalar(bs) == c as int
  {
    SixBits(c as int);
  }

  lemma DecodeOne(c: char, rest: string)
    ensures DecodeComponent(EncodeChar(c) + rest) == Prepend(c, DecodeComponent(rest))
  {
    if Unreserved(c) {
      assert ([c] + rest)[1..] == rest;
    } else {
      var bs := Utf8(c);
      var s := Percent(bs) + rest;
      Utf8Scalar(c);
      ReadPercent(bs, rest, 1);
      ReadPercent(bs, rest, |bs|);
      assert bs[..|bs|] == bs && bs[..1][0] == bs[0];
      assert s[0] == '%' && s[3 * |bs|..] == rest;
    }
  }

  /** Percent-encoding is undone by decoding, for every text. */
  lemma {:induction false} ComponentRoundTrip(s: string)
    ensures DecodeComponent(EncodeComponent(s)) == Some(s)
  {
    if s != "" {
      ComponentRoundTrip(s[1..]);
      DecodeOne(s[0], EncodeComponent(s[1..]));
      assert s == [s[0]] + s[1..];
    }
  }

  lemma {:induction false} PercentSafe(bs: seq<Byte>, c: char)
    requires c in Percent(bs)
    ensures c == '%' || '0' <= c <= '9' || 'A' <= c <= 'F'
  {
    if c in Percent(bs[1..]) {
      PercentSafe(bs[1..], c);
    }
  }

  /** Every character is a letter, a digit, one of nine marks or the percent sign. */
  lemma {:induction false} EncodedSafe(s: string, c: char)
    requires c in EncodeComponent(s)
    ensures 'A' <= c <= 'Z' || 'a' <= c <= 'z' || '0' <= c <= '9' || c in "-_.!~*'()%"
  {
    if c in EncodeChar(s[0]) {
      if !Unreserved(s[0]) {
        PercentSafe(Utf8(s[0]), c);
      }
    } else {
      EncodedSafe(s[1..], c);
    }
  }

  /** Text of letters, digits and marks is left alone. */
  lemma {:induction false} PlainKept(s: string)
    requires forall i :: 0 <= i < |s| ==>
                           'A' <= s[i] <= 'Z' || 'a' <= s[i] <= 'z' || '0' <= s[i] <= '9' || s[i] in "-_.!~*'()"
    ensures EncodeComponent(s) == s
  {
    if s != "" {
      PlainKept(s[1..]);
      assert s == [s[0]] + s[1..];
    }
  }

  lemma NoAmpersand(s: string)
    ensures '&' !in EncodeComponent(s)
  {
    if '&' in EncodeComponent(s) {
      EncodedSafe(s, '&');
    }
  }

  // ---------- the canonicaliser ----------

  function Param(tracker: string): string { "tr=" + EncodeComponent(tracker) }

  /** `&tr=...` for each tracker. */
  function Params(trackers: seq<string>): string {
    if trackers == [] then "" else "&" + (Param(trackers[0]) + Params(trackers[1..]))
  }

  /** `generateEnhancedMagnet`. */
  function Link(hash: string, trackers: seq<string>): string { PREFIX + (hash + Params(trackers)) }

  predicate IsMagnet(uri: string) { IndexOf(uri, PREFIX).Some? }

  /** `uri.split(PREFIX)[1].split('&')[0]`. */
  function HashPart(uri: string): string
    requires IsMagnet(uri)
  {
    Split(Split(uri, PREFIX)[1], "&")[0]
  }

  /** The link has an info hash of an accepted length, in UTF-16 units. */
  predicate Accepted(uri: string) { IsMagnet(uri) && Units(HashPart(uri)) in {32, 40} }

  /** `getEnhancedMagnetURI` with the tracker list in force; `normalizeInfoHash` lowercases in all its branches. */
  function Enhance(uri: string, trackers: seq<string>): string {
    if !IsMagnet(uri) then uri
    else
      var hash := Lower(HashPart(uri));
      if Units(hash) != 40 && Units(hash) != 32 then uri else Link(hash, trackers)
  }

  // ---------- extracting the hash from a link ----------

  lemma FirstPart(s: string, c: char)
    ensures c !in Split(s, [c])[0]
  {
    var p := Split(s, [c])[0];
    if i :| 0 <= i < |p| && p[i] == c {
      assert s[i..i + 1] == [c];
      assert At(s, [c], i);
    }
  }

  lemma PrefixFirst(p: string, x: string)
    requires p != ""
    ensures IndexOf(p + x, p) == Some(0) && |Split(p + x, p)| > 1 && Split(p + x, p)[1] == Split(x, p)[0]
  {
  }

  /** Text that is empty or goes on with a parameter. */
  predicate Tail(rest: string) { rest != "" ==> rest[0] == '&' }

  lemma CutAtAmpersand(h: string, rest: string)
    requires '&' !in h && Tail(rest)
    ensures Split(h + rest, "&")[0] == h
  {
    if rest == "" {
      assert h + rest == h;
      SplitOne(h, '&');
    } else {
      assert h + rest == h + "&" + rest[1..];
      SplitFirst(h, '&', rest[1..]);
    }
  }

  lemma AtChar(s: string, p: string, i: nat, k: nat)
    requires At(s, p, i) && i <= k < i + |p|
    ensures s[k] in p
  {
  }

  /** No occurrence of a separator without ampersand straddles the end of the hash. */
  lemma NoStraddle(p: string, h: string, rest: string, i: nat)
    requires '&' !in p && Tail(rest) && At(h + rest, p, i)
    ensures i + |p| <= |h| || i > |h|
    ensures i + |p| <= |h| ==> At(h, p, i)
  {
    if i <= |h| < i + |p| {
      AtChar(h + rest, p, i, |h|);
      assert false;
    }
    if i + |p| <= |h| {
      assert h[i..i + |p|] == (h + rest)[i..i + |p|];
    }
  }

  /** A hash without the separator is read back whole. */
  lemma {:induction false} CutPlain(p: string, h: string, rest: string)
    requires p != "" && '&' !in p && '&' !in h && Tail(rest) && IndexOf(h, p).None?
    ensures Split(Split(h + rest, p)[0], "&")[0] == h
  {
    var x := h + rest;
    match IndexOf(x, p)
    case None =>
      CutAtAmpersand(h, rest);
    case Some(i) =>
      NoStraddle(p, h, rest, i);
      assert x[..i] == h + rest[..i - |h|];
      CutAtAmpersand(h, rest[..i - |h|]);
  }

  /** A hash that contains the separator is cut there. */
  lemma {:induction false} CutOdd(p: string, h: string, rest: string)
    requires p != "" && '&' !in p && '&' !in h && Tail(rest) && IndexOf(h, p).Some?
    ensures Split(Split(h + rest, p)[0], "&")[0] == h[..IndexOf(h, p).value]
  {
    var x, j := h + rest, IndexOf(h, p).value;
    assert x[j..j + |p|] == h[j..j + |p|];
    assert At(x, p, j);
    var i := IndexOf(x, p).value;
    NoStraddle(p, h, rest, i);
    assert i == j;
    assert x[..j] == h[..j];
    SplitOne(h[..j], '&');
  }

  lemma ParamsTail(trackers: seq<string>)
    ensures Tail(Params(trackers))
  {
  }

  /** What the hash part of a link is, and that enhancing depends on nothing else. */
  lemma {:induction false} HashOfLink(h: string, rest: string)
    requires '&' !in h && Tail(rest)
    ensures var uri := PREFIX + (h + rest);
            IsMagnet(uri) && HashPart(uri) == if IndexOf(h, PREFIX).None? then h else h[..IndexOf(h, PREFIX).value]
  {
    PrefixFirst(PREFIX, h + rest);
    if IndexOf(h, PREFIX).None? {
      CutPlain(PREFIX, h, rest);
    } else {
      CutOdd(PREFIX, h, rest);
    }
  }

  lemma HashHasNoAmpersand(uri: string)
    requires IsMagnet(uri)
    ensures '&' !in HashPart(uri) && '&' !in Lower(HashPart(uri))
  {
    FirstPart(Split(uri, PREFIX)[1], '&');
  }

  // ---------- main results ----------

  /**
   Enhancing an enhanced link under any later tracker list: the result is that of enhancing the
   original under the later list, except for the odd hashes that contain the separator once
   lowercased, which keep the earlier list.
   */
  lemma {:induction false} EnhanceTwice(uri: string, earlier: seq<string>, later: seq<string>)
    ensures var odd := Accepted(uri) && IndexOf(Lower(HashPart(uri)), PREFIX).Some?;
            Enhance(Enhance(uri, earlier), later) == if odd then Enhance(uri, earlier) else Enhance(uri, later)
  {
    if Accepted(uri) {
      var h := Lower(HashPart(uri));
      HashHasNoAmpersand(uri);
      LowerUnits(HashPart(uri));
      LowerTwice(HashPart(uri));
      EnhanceLink(h, earlier, later);
    } else {
      OthersUntouched(uri, earlier);
      OthersUntouched(uri, later);
    }
  }

  /** Enhancing a link made of a lower-case hash. */
  lemma {:induction false} EnhanceLink(h: string, earlier: seq<string>, later: seq<string>)
    requires '&' !in h && Lower(h) == h && Units(h) in {32, 40}
    ensures Enhance(Link(h, earlier), later) == Link(h, if IndexOf(h, PREFIX).Some? then earlier else later)
  {
    ParamsTail(earlier);
    HashOfLink(h, Params(earlier));
    var found := IndexOf(h, PREFIX);
    if found.Some? {
      CutIsShort(h, PREFIX, found.value);
      OthersUntouched(Link(h, earlier), later);
    }
  }

  /** What precedes a separator of 20 characters in an accepted hash is too short to be one. */
  lemma CutIsShort(h: string, p: string, j: nat)
    requires At(h, p, j) && |p| == 20 && Units(h) in {32, 40}
    ensures Units(h[..j]) <= 20
  {
    UnitsAppend(h[..j], h[j..]);
    UnitsBound(h[j..]);
    assert h == h[..j] + h[j..];
  }

  /** With one tracker list enhancing is idempotent, for every link. */
  lemma {:induction false} EnhanceIdempotent(uri: string, trackers: seq<string>)
    ensures Enhance(Enhance(uri, trackers), trackers) == Enhance(uri, trackers)
  {
    EnhanceTwice(uri, trackers, trackers);
  }

  /** Reading a link back: the hash and the decoded trackers; None if some part is not a tracker parameter. */
  datatype Parsed = Parsed(hash: string, trackers: Option<seq<string>>)

  function ParseParam(part: string): Option<string> {
    if "tr=" <= part then DecodeComponent(part[3..]) else None
  }

  function ParseParams(parts: seq<string>): Option<seq<string>> {
    if parts == [] then Some([])
    else
      var t, ts := ParseParam(parts[0]), ParseParams(parts[1..]);
      if t.None? || ts.None? then None else Some([t.value] + ts.value)
  }

  function Parse(link: string): Parsed {
    var parts := Split(link, "&");
    Parsed(if PREFIX <= parts[0] then parts[0][|PREFIX|..] else "", ParseParams(parts[1..]))
  }

  lemma ParamRoundTrip(tracker: string)
    ensures ParseParam(Param(tracker)) == Some(tracker) && '&' !in Param(tracker)
  {
    ComponentRoundTrip(tracker);
    NoAmpersand(tracker);
    assert Param(tracker)[3..] == EncodeComponent(tracker);
  }

  lemma {:induction false} SplitParams(a: string, trackers: seq<string>)
    requires '&' !in a
    ensures var parts := Split(a + Params(trackers), "&");
            parts[0] == a && ParseParams(parts[1..]) == Some(trackers)
    decreases trackers
  {
    if trackers == [] {
      assert a + Params(trackers) == a;
      SplitOne(a, '&');
    } else {
      var p, rest := Param(trackers[0]), trackers[1..];
      ParamRoundTrip(trackers[0]);
      SplitParams(p, rest);
      Regroup(a, "&", p + Params(rest));
      SplitFirst(a, '&', p + Params(rest));
      ParseMore(a, Split(p + Params(rest), "&"), trackers[0], rest);
      assert trackers == [trackers[0]] + rest;
    }
  }

  lemma ParseMore(a: string, parts: seq<string>, t: string, ts: seq<string>)
    requires parts != [] && ParseParam(parts[0]) == Some(t) && ParseParams(parts[1..]) == Some(ts)
    ensures ParseParams(([a] + parts)[1..]) == Some([t] + ts)
  {
  }

  lemma Strip(p: string, h: string)
    ensures p <= p + h && (p + h)[|p|..] == h
    ensures '&' !in p && '&' !in h ==> '&' !in p + h
  {
  }

  lemma ParseLink(h: string, trackers: seq<string>)
    requires '&' !in h
    ensures Parse(Link(h, trackers)) == Parsed(h, Some(trackers))
  {
    Strip(PREFIX, h);
    Regroup(PREFIX, h, Params(trackers));
    SplitParams(PREFIX + h, trackers);
  }

  /**
   The enhanced link prints the lowercased hash and the tracker list: splitting and decoding give both
   back, in order.
   */
  lemma {:induction false} LinkIsFaithful(uri: string, trackers: seq<string>)
    requires Accepted(uri)
    ensures Enhance(uri, trackers) == Link(Lower(HashPart(uri)), trackers)
    ensures Parse(Enhance(uri, trackers)) == Parsed(Lower(HashPart(uri)), Some(trackers))
  {
    LowerUnits(HashPart(uri));
    HashHasNoAmpersand(uri);
    ParseLink(Lower(HashPart(uri)), trackers);
  }

  /** Two texts that differ in case only. */
  ghost predicate SameButCase(s: string, t: string) {
    |s| == |t| && forall i :: 0 <= i < |s| ==> exists c :: LowersTo(s[i], c) && LowersTo(t[i], c)
  }

  /**
   The hash in the enhanced link is the one between the first separator and the next ampersand, with
   capitals made small and nothing else changed; so a hash without capitals is kept as it is.
   */
  lemma {:induction false} HashIsKept(start: string, h: string, rest: string, trackers: seq<string>)
    requires IndexOf(start + (PREFIX + (h + rest)), PREFIX) == Some(|start|)
    requires '&' !in h && Tail(rest) && IndexOf(h, PREFIX).None? && Units(h) in {32, 40}
    ensures var r := Parse(Enhance(start + (PREFIX + (h + rest)), trackers));
            && |r.hash| == |h| && (forall i :: 0 <= i < |h| ==> LowersTo(h[i], r.hash[i]))
            && ((forall i :: 0 <= i < |h| ==> !('A' <= h[i] <= 'Z')) ==> r.hash == h)
            && r.trackers == Some(trackers)
  {
    var uri := start + (PREFIX + (h + rest));
    AfterBoth(start, PREFIX, h + rest);
    HashAfter(PREFIX, uri, |start|, h, rest);
    LinkIsFaithful(uri, trackers);
    if forall i :: 0 <= i < |h| ==> !('A' <= h[i] <= 'Z') {
      LowerKeeps(h);
    }
  }

  lemma AfterBoth(a: string, b: string, c: string)
    ensures (a + (b + c))[|a| + |b|..] == c
  {
  }

  lemma {:induction false} HashAfter(p: string, uri: string, i: nat, h: string, rest: string)
    requires p != "" && '&' !in p && '&' !in h && Tail(rest) && IndexOf(h, p).None?
    requires IndexOf(uri, p) == Some(i) && uri[i + |p|..] == h + rest
    ensures |Split(uri, p)| > 1 && Split(Split(uri, p)[1], "&")[0] == h
  {
    SecondPart(uri, p, i);
    CutPlain(p, h, rest);
  }

  lemma {:induction false} SecondPart(s: string, p: string, i: nat)
    requires p != "" && IndexOf(s, p) == Some(i)
    ensures |Split(s, p)| > 1 && Split(s, p)[1] == Split(s[i + |p|..], p)[0]
  {
  }

  /** Links whose hashes differ in case only are enhanced to the same link. */
  lemma {:induction false} CaseIrrelevant(a: string, b: string, trackers: seq<string>)
    requires Accepted(a) && Accepted(b) && SameButCase(HashPart(a), HashPart(b))
    ensures Enhance(a, trackers) == Enhance(b, trackers)
  {
    var s, t := HashPart(a), HashPart(b);
    forall i | 0 <= i < |s| ensures Lower(s)[i] == Lower(t)[i] {
      assert LowersTo(s[i], Lower(s)[i]) && LowersTo(t[i], Lower(t)[i]);
    }
    LowerUnits(s);
    LowerUnits(t);
    assert Lower(s) == Lower(t);
  }

  /** A link without the separator, or with a hash of another length, is returned as it is. */
  lemma {:induction false} OthersUntouched(uri: string, trackers: seq<string>)
    requires IndexOf(uri, PREFIX).None? || Units(HashPart(uri)) !in {32, 40}
    ensures Enhance(uri, trackers) == uri
  {
    if IsMagnet(uri) {
      LowerUnits(HashPart(uri));
    }
  }

  /** So a later tracker list is taken up exactly when it is no news or the hash is not odd. */
  lemma {:induction false} LaterListTakenUp(uri: string, earlier: seq<string>, later: seq<string>)
    ensures var odd := Accepted(uri) && IndexOf(Lower(HashPart(uri)), PREFIX).Some?;
            Enhance(Enhance(uri, earlier), later) == Enhance(uri, later) <==> !odd || earlier == later
  {
    EnhanceTwice(uri, earlier, later);
    if Accepted(uri) {
      LinkIsFaithful(uri, earlier);
      LinkIsFaithful(uri, later);
    }
  }

  lemma {:induction false} LowerAppend(a: string, b: string)
    ensures Lower(a + b) == Lower(a) + Lower(b)
  {
    LowerUnique(a + b, Lower(a) + Lower(b));
  }

  lemma FirstCharAbsent(s: string, p: string)
    requires p != "" && p[0] !in s
    ensures IndexOf(s, p).None?
  {
  }

  lemma EndsWith(a: string, p: string)
    requires p != ""
    ensures IndexOf(a + p, p).Some?
  {
    assert (a + p)[|a|..|a| + |p|] == p;
    assert At(a + p, p, |a|);
  }

  lemma PrefixAscii()
    ensures forall i :: 0 <= i < |PREFIX| ==> PREFIX[i] as int < 0x80
  {
  }

  lemma {:induction false} OddUnits(start: string, u: string, p: string)
    requires |p| == 20 && forall i :: 0 <= i < |p| ==> p[i] as int < 0x80
    requires Units(start) == 12 && Lower(u) == p
    ensures Units(start + u) == 32
  {
    UnitsAppend(start, u);
    LowerUnits(u);
    AsciiUnits(p);
  }

  /** There are odd hashes: twelve units and the separator spelled with a capital M. */
  lemma {:induction false} OddHashes(start: string, u: string)
    requires Units(start) == 12 && 'm' !in start && '&' !in start
    requires |u| == 20 && 'm' !in u && '&' !in u && Lower(u) == PREFIX
    ensures var uri := PREFIX + (start + u + "");
            Accepted(uri) && HashPart(uri) == start + u && IndexOf(Lower(HashPart(uri)), PREFIX).Some?
  {
    FirstCharAbsent(start + u, PREFIX);
    HashOfLink(start + u, "");
    LowerAppend(start, u);
    PrefixAscii();
    OddUnits(start, u, PREFIX);
    EndsWith(Lower(start), PREFIX);
  }
}
