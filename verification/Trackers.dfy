/** The global tracker list and its updates from the online sources, one update at a time. */
module Trackers {
  import opened Text
  import opened Magnet

  const DEFAULT_TRACKERS: seq<string> := [
    "udp://tracker.opentrackr.org:1337/announce",
    "udp://tracker.openbittorrent.com:80",
    "udp://tracker.torrent.eu.org:451",
    "udp://tracker.leechers-paradise.org:6969",
    "wss://tracker.openwebtorrent.com"
  ]

  /** What a source answers: a failed or refused request, or a text. */
  datatype Response = NoList | Body(text: string)

  function TrimAll(lines: seq<string>): seq<string> {
    if lines == [] then [] else [Trim(lines[0])] + TrimAll(lines[1..])
  }

  predicate IsTracker(t: string) { t != "" && !("#" <= t) && ("http" <= t || "udp" <= t) }

  function OnlyTrackers(lines: seq<string>): (r: seq<string>)
    ensures forall t :: t in r <==> t in lines && IsTracker(t)
  {
    if lines == [] then []
    else if IsTracker(lines[0]) then [lines[0]] + OnlyTrackers(lines[1..])
    else OnlyTrackers(lines[1..])
  }

  /** The tracker lines of a response. */
  function Listed(r: Response): seq<string> {
    match r
    case NoList => []
    case Body(text) => OnlyTrackers(TrimAll(Split(text, "\n")))
  }

  /** `getDefaultTrackers`. */
  function InForce(trackers: seq<string>): seq<string> { if trackers != [] then trackers else DEFAULT_TRACKERS }

  /** Each source adds all its lines at once; `responses` is in order of completion. */
  function Merge(trackers: seq<string>, responses: seq<Response>): seq<string> {
    if responses == [] then trackers
    else AddAll(Merge(trackers, responses[..|responses| - 1]), Listed(responses[|responses| - 1]))
  }

  /** `updateTrackersList`. */
  function Updated(trackers: seq<string>, responses: seq<Response>): seq<string> {
    Merge(AddAll([], InForce(trackers)), responses)
  }

  // ---------- what a source offers ----------

  /** The text, taken apart at its line feeds, has a line that is `t` and white space around it. */
  ghost predicate HasLine(text: string, t: string) {
    exists lines, k: nat ::
      k < |lines| && AllWithout(lines, '\n') && text == Join(lines, '\n') && Surrounds(lines[k], t)
  }

  /** `t` is a line of the text and begins like a tracker address. */
  ghost predicate Offers(text: string, t: string) { Bare(t) && ("http" <= t || "udp" <= t) && HasLine(text, t) }

  /** Some source answered with a text that offers `t`. */
  ghost predicate Offered(responses: seq<Response>, t: string) {
    exists i :: 0 <= i < |responses| && responses[i].Body? && Offers(responses[i].text, t)
  }

  lemma {:induction false} TrimAllIn(lines: seq<string>, t: string)
    requires t != ""
    ensures t in TrimAll(lines) <==> Bare(t) && exists k: nat :: k < |lines| && Surrounds(lines[k], t)
  {
    if lines != [] {
      var rest := lines[1..];
      TrimAllIn(rest, t);
      TrimSpec(lines[0], t);
      assert forall k: nat :: k < |rest| ==> rest[k] == lines[k + 1];
      if k: nat :| k < |lines| && Surrounds(lines[k], t) {
        assert k > 0 ==> rest[k - 1] == lines[k];
      }
    }
  }

  lemma {:induction false} TrimmedLines(text: string, t: string)
    requires t != ""
    ensures t in TrimAll(Split(text, "\n")) <==> Bare(t) && HasLine(text, t)
  {
    var lines := Split(text, "\n");
    TrimAllIn(lines, t);
    JoinSplit(text, '\n');
    if Bare(t) && HasLine(text, t) {
      var ls, k: nat :| k < |ls| && AllWithout(ls, '\n') && text == Join(ls, '\n') && Surrounds(ls[k], t);
      SplitJoined(ls, '\n');
    }
  }

  lemma TrackerStart(t: string)
    ensures IsTracker(t) <==> "http" <= t || "udp" <= t
  {
    assert "http" <= t ==> t[0] == 'h';
    assert "udp" <= t ==> t[0] == 'u';
    assert "#" <= t ==> t[0] == '#';
  }

  /** The accepted lines of a source are exactly those its text offers. */
  lemma {:induction false} ListedExactly(r: Response, t: string)
    ensures t in Listed(r) <==> r.Body? && Offers(r.text, t)
  {
    TrackerStart(t);
    if r.Body? && ("http" <= t || "udp" <= t) {
      TrimmedLines(r.text, t);
    }
  }

  // ---------- one update ----------

  lemma {:induction false} MergeSpec(trackers: seq<string>, responses: seq<Response>)
    requires NoRepeats(trackers)
    ensures NoRepeats(Merge(trackers, responses)) && trackers <= Merge(trackers, responses)
    ensures forall t :: t in Merge(trackers, responses) <==> t in trackers || Offered(responses, t)
  {
    if responses != [] {
      var front, last := responses[..|responses| - 1], responses[|responses| - 1];
      MergeSpec(trackers, front);
      AddAllIsUnion(Merge(trackers, front), Listed(last));
      forall t ensures t in Merge(trackers, responses) <==> t in trackers || Offered(responses, t) {
        ListedExactly(last, t);
        OfferedLast(responses, t);
      }
    }
  }

  lemma {:induction false} OfferedLast(responses: seq<Response>, t: string)
    requires responses != []
    ensures var front, last := responses[..|responses| - 1], responses[|responses| - 1];
            Offered(responses, t) <==> Offered(front, t) || (last.Body? && Offers(last.text, t))
  {
    var front := responses[..|responses| - 1];
    if Offered(front, t) {
      var i :| 0 <= i < |front| && front[i].Body? && Offers(front[i].text, t);
      assert responses[i] == front[i];
    }
    if Offered(responses, t) {
      var i :| 0 <= i < |responses| && responses[i].Body? && Offers(responses[i].text, t);
      assert i < |front| ==> front[i] == responses[i];
    }
  }

  lemma {:induction false} AddAllToEmpty(s: seq<string>)
    requires NoRepeats(s)
    ensures AddAll([], s) == s
  {
    if s != [] {
      var front, x := s[..|s| - 1], s[|s| - 1];
      AddAllToEmpty(front);
      assert x !in front;
      assert s == front + [x];
    }
  }

  lemma DefaultsDistinct()
    ensures NoRepeats(DEFAULT_TRACKERS)
  {
  }

  /** `u` keeps the list `base` in front and adds exactly what the sources offer. */
  ghost predicate Extended(base: seq<string>, responses: seq<Response>, u: seq<string>) {
    NoRepeats(u) && base <= u && u != [] && forall t :: t in u <==> t in base || Offered(responses, t)
  }

  /** One update, whatever sources fail and in whatever order the others complete. */
  lemma {:induction false} UpdateSpec(trackers: seq<string>, responses: seq<Response>)
    requires NoRepeats(trackers)
    ensures Extended(if trackers == [] then DEFAULT_TRACKERS else trackers, responses, Updated(trackers, responses))
  {
    var base := InForce(trackers);
    DefaultsDistinct();
    AddAllToEmpty(base);
    MergeSpec(base, responses);
  }

  /** The list after a series of updates. */
  function After(updates: seq<seq<Response>>): seq<string> {
    if updates == [] then DEFAULT_TRACKERS
    else Updated(After(updates[..|updates| - 1]), updates[|updates| - 1])
  }

  /** Some update of the series got the tracker from some source. */
  ghost predicate EverOffered(updates: seq<seq<Response>>, t: string) {
    exists j :: 0 <= j < |updates| && Offered(updates[j], t)
  }

  lemma {:induction false} EverOfferedLast(updates: seq<seq<Response>>, t: string)
    requires updates != []
    ensures EverOffered(updates, t) <==>
            EverOffered(updates[..|updates| - 1], t) || Offered(updates[|updates| - 1], t)
  {
    var front := updates[..|updates| - 1];
    if EverOffered(front, t) {
      var j :| 0 <= j < |front| && Offered(front[j], t);
      assert updates[j] == front[j];
    }
    if EverOffered(updates, t) {
      var j :| 0 <= j < |updates| && Offered(updates[j], t);
      assert j < |front| ==> front[j] == updates[j];
    }
  }

  /**
   After any series of updates the list has no repeats, begins with each list in force before, and
   holds exactly the defaults and the lines of the sources that succeeded at some time.
   */
  lemma {:induction false} TrackersOverRuns(updates: seq<seq<Response>>, k: nat)
    requires k <= |updates|
    ensures var u := After(updates);
            && NoRepeats(u) && u != [] && After(updates[..k]) <= u
            && forall t :: t in u <==> t in DEFAULT_TRACKERS || EverOffered(updates, t)
  {
    if updates == [] {
      DefaultsDistinct();
      assert updates[..k] == [];
    } else {
      var front, last := updates[..|updates| - 1], updates[|updates| - 1];
      TrackersOverRuns(front, if k <= |front| then k else |front|);
      UpdateSpec(After(front), last);
      forall t ensures EverOffered(updates, t) <==> EverOffered(front, t) || Offered(last, t) {
        EverOfferedLast(updates, t);
      }
      if k <= |front| {
        assert front[..k] == updates[..k];
      } else {
        assert updates[..k] == updates;
      }
    }
  }

  /** The order in which the sources complete does not change what is in the list. */
  lemma {:induction false} CompletionOrderIrrelevant(trackers: seq<string>, a: seq<Response>, b: seq<Response>)
    requires NoRepeats(trackers) && multiset(a) == multiset(b)
    ensures forall t :: t in Updated(trackers, a) <==> t in Updated(trackers, b)
  {
    UpdateSpec(trackers, a);
    UpdateSpec(trackers, b);
    forall t ensures Offered(a, t) <==> Offered(b, t) {
      if Offered(a, t) { OfferedElsewhere(a, b, t); }
      if Offered(b, t) { OfferedElsewhere(b, a, t); }
    }
  }

  lemma {:induction false} OfferedElsewhere(a: seq<Response>, b: seq<Response>, t: string)
    requires multiset(a) == multiset(b) && Offered(a, t)
    ensures Offered(b, t)
  {
    var i :| 0 <= i < |a| && a[i].Body? && Offers(a[i].text, t);
    assert a[i] in multiset(a) && a[i] in multiset(b);
    var j :| 0 <= j < |b| && b[j] == a[i];
  }

  class TrackerList {
    var trackers: seq<string>

    constructor ()
      ensures trackers == DEFAULT_TRACKERS
    {
      trackers := DEFAULT_TRACKERS;
    }

    method GetDefaultTrackers() returns (r: seq<string>)
      ensures r == InForce(trackers) && r != []
    {
      r := if |trackers| > 0 then trackers else DEFAULT_TRACKERS;
    }

    method UpdateTrackersList(responses: seq<Response>)
      modifies this
      ensures trackers == Updated(old(trackers), responses)
      ensures NoRepeats(old(trackers)) ==> Extended(InForce(old(trackers)), responses, trackers)
    {
      var start := GetDefaultTrackers();
      var found := AddAll([], start);
      ghost var first := found;
      for i := 0 to |responses|
        invariant found == Merge(first, responses[..i])
      {
        assert responses[..i + 1][..i] == responses[..i];
        found := AddAll(found, Listed(responses[i]));
      }
      assert responses[..|responses|] == responses;
      trackers := found;
      if NoRepeats(old(trackers)) {
        UpdateSpec(old(trackers), responses);
      }
    }

    method GetEnhancedMagnetURI(uri: string) returns (r: string)
      ensures r == Enhance(uri, InForce(trackers))
    {
      if !IsMagnet(uri) { return uri; }
      var hash := Lower(HashPart(uri));
      if Units(hash) != 40 && Units(hash) != 32 { return uri; }
      var list := GetDefaultTrackers();
      var params := "";
      for i := 0 to |list|
        invariant params + Params(list[i..]) == Params(list)
      {
        assert list[i..][1..] == list[i + 1..];
        var next := "&" + Param(list[i]);
        Regroup("&", Param(list[i]), Params(list[i + 1..]));
        Regroup(params, next, Params(list[i + 1..]));
        params := params + next;
      }
      assert params + Params(list[|list|..]) == params;
      r := PREFIX + (hash + params);
    }
  }
}
